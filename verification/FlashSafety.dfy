/** What a clean layout report means: exact tiling, and a boot-table band that no
    runtime-writable row reaches. */
module FlashSafety {
  import opened PyText
  import opened FlashGate

  predicate Covers(p: Piece, x: int) { p.lo <= x < p.hi }

  /** How many of the pieces hold address `x`. */
  function CoverCount(ps: seq<Piece>, x: int): nat {
    if ps == [] then 0 else (if Covers(ps[0], x) then 1 else 0) + CoverCount(ps[1..], x)
  }

  ghost predicate InGap(fs: seq<Failure>, x: int) {
    exists f :: f in fs && f.Gap? && f.lo <= x < f.hi
  }

  /** The pieces cover exactly the addresses from the cursor to the top, once each. */
  ghost predicate Fills(ps: seq<Piece>, cursor: int, ap: Aperture) {
    forall x: int :: CoverCount(ps, x) == if cursor <= x < ap.1 then 1 else 0
  }

  /** The pieces partition the aperture: every address inside is in exactly one of
      them, and none holds an address outside. */
  ghost predicate Partitions(ps: seq<Piece>, ap: Aperture) { Fills(ps, ap.0, ap) }

  lemma {:induction false} CoverInsert(p: Piece, ps: seq<Piece>, x: int)
    ensures CoverCount(Insert(p, ps, PieceLE), x) == (if Covers(p, x) then 1 else 0) + CoverCount(ps, x)
  {
    if ps == [] || PieceLE(p, ps[0]) {
      assert ([p] + ps)[1..] == ps;
    } else {
      CoverInsert(p, ps[1..], x);
      assert ([ps[0]] + Insert(p, ps[1..], PieceLE))[1..] == Insert(p, ps[1..], PieceLE);
    }
  }

  lemma {:induction false} CoverSort(ps: seq<Piece>, x: int)
    ensures CoverCount(SortBy(ps, PieceLE), x) == CoverCount(ps, x)
  {
    if ps != [] {
      CoverSort(ps[1..], x);
      CoverInsert(ps[0], SortBy(ps[1..], PieceLE), x);
    }
  }

  lemma {:induction false} CoverWitness(ps: seq<Piece>, x: int)
    ensures CoverCount(ps, x) > 0 <==> exists p :: p in ps && Covers(p, x)
  {
    if ps != [] {
      CoverWitness(ps[1..], x);
      assert ps == [ps[0]] + ps[1..];
    }
  }

  lemma {:induction false} CoverTwo(ps: seq<Piece>, x: int, a: Piece, b: Piece)
    requires a in ps && b in ps && a != b && Covers(a, x) && Covers(b, x)
    ensures CoverCount(ps, x) >= 2
  {
    assert ps == [ps[0]] + ps[1..];
    CoverWitness(ps[1..], x);
    if a != ps[0] && b != ps[0] { CoverTwo(ps[1..], x, a, b); }
  }

  /** What the sweep assumes of its input: sorted by base, each base below the top. */
  ghost predicate Swept(ps: seq<Piece>, ap: Aperture) {
    && (forall i, j :: 0 <= i < j < |ps| ==> ps[i].lo <= ps[j].lo)
    && (forall p :: p in ps ==> p.lo < ap.1)
  }

  lemma SweptTail(ps: seq<Piece>, ap: Aperture)
    requires ps != [] && Swept(ps, ap)
    ensures Swept(ps[1..], ap) && forall p :: p in ps[1..] ==> ps[0].lo <= p.lo
  {
    assert ps == [ps[0]] + ps[1..];
    forall i, j | 0 <= i < j < |ps[1..]| ensures ps[1..][i].lo <= ps[1..][j].lo {
      assert ps[i + 1].lo <= ps[j + 1].lo;
    }
    forall p | p in ps[1..] ensures ps[0].lo <= p.lo {
      var k :| 0 <= k < |ps[1..]| && ps[1..][k] == p;
      assert ps[k + 1] == p;
    }
  }

  /** From the cursor up, an address is in a reported gap exactly when no piece
      covers it; sizes may be zero or negative. */
  lemma {:induction false} SweepGaps(ps: seq<Piece>, cursor: int, ap: Aperture, x: int)
    requires Swept(ps, ap) && ap.0 <= cursor
    ensures InGap(Sweep(ps, cursor, ap), x) <==> cursor <= x < ap.1 && CoverCount(ps, x) == 0
    decreases ps
  {
    if ps == [] {
      assert InGap([Gap(cursor, ap.1)], x) <==> cursor <= x < ap.1 by {
        assert [Gap(cursor, ap.1)][0].Gap?;
      }
    } else {
      var p := ps[0];
      var next := Max(cursor, p.hi);
      SweptTail(ps, ap);
      SweepGaps(ps[1..], next, ap, x);
      CoverWitness(ps[1..], x);
      var here, rest := PieceFailure(p, cursor, ap), Sweep(ps[1..], next, ap);
      assert forall f :: f in here + rest <==> f in here || f in rest;
      assert InGap(here, x) <==> cursor <= x < p.lo by {
        if cursor < p.lo { assert here == [Gap(cursor, p.lo)] && Gap(cursor, p.lo) in here; }
      }
      assert InGap(here + rest, x) <==> InGap(here, x) || InGap(rest, x);
      assert p in ps;
    }
  }

  lemma {:induction false} SweepEnd(ps: seq<Piece>, cursor: int, ap: Aperture)
    requires Sweep(ps, cursor, ap) == []
    ensures cursor <= ap.1
    decreases ps
  {
    if ps != [] { SweepEnd(ps[1..], Max(cursor, ps[0].hi), ap); }
  }

  lemma {:induction false} CleanSweepCovers(ps: seq<Piece>, cursor: int, ap: Aperture, x: int)
    requires Sweep(ps, cursor, ap) == []
    ensures CoverCount(ps, x) == if cursor <= x < ap.1 then 1 else 0
    decreases ps
  {
    if ps != [] {
      CleanSweepCovers(ps[1..], Max(cursor, ps[0].hi), ap, x);
      SweepEnd(ps[1..], Max(cursor, ps[0].hi), ap);
    }
  }

  lemma FillsHead(ps: seq<Piece>, cursor: int, ap: Aperture)
    requires ps != [] && Swept(ps, ap) && Fills(ps, cursor, ap) && ps[0].lo < ps[0].hi
    ensures ps[0].lo == cursor && ps[0].hi <= ap.1
  {
    var p := ps[0];
    assert p in ps && Covers(p, p.lo);
    CoverWitness(ps, p.lo);
    CoverWitness(ps, cursor);
    CoverWitness(ps, ap.1);
    assert CoverCount(ps, p.lo) == 1 && CoverCount(ps, cursor) == 1 && CoverCount(ps, ap.1) == 0;
    var q :| q in ps && Covers(q, cursor);
    assert p.lo <= q.lo;
    assert !Covers(p, ap.1);
  }

  lemma {:induction false} PartitionSweepsClean(ps: seq<Piece>, cursor: int, ap: Aperture)
    requires Swept(ps, ap) && ap.0 <= cursor <= ap.1
    requires forall p :: p in ps ==> p.lo < p.hi
    requires Fills(ps, cursor, ap)
    ensures Sweep(ps, cursor, ap) == []
    decreases ps
  {
    if ps == [] {
      assert CoverCount(ps, cursor) == 0;
    } else {
      var p := ps[0];
      SweptTail(ps, ap);
      FillsHead(ps, cursor, ap);
      assert forall q :: q in ps[1..] ==> q in ps;
      forall x: int ensures CoverCount(ps[1..], x) == if p.hi <= x < ap.1 then 1 else 0 {
        assert CoverCount(ps, x) == (if Covers(p, x) then 1 else 0) + CoverCount(ps[1..], x);
      }
      PartitionSweepsClean(ps[1..], p.hi, ap);
    }
  }

  lemma {:induction false} ContainedFacts(rows: seq<Row>, ap: Aperture)
    ensures forall p :: p in Contained(rows, ap) ==> p.lo < ap.1 && p.hi > ap.0 && !(p.lo == ap.0 && p.hi == ap.1)
    ensures forall p :: p in Contained(rows, ap) <==> exists r :: r in rows && PieceOf(r, ap) == Some(p)
  {
    if rows != [] {
      ContainedFacts(rows[1..], ap);
      assert rows == [rows[0]] + rows[1..];
    }
  }

  lemma SortedContained(rows: seq<Row>, ap: Aperture)
    ensures var ps := SortBy(Contained(rows, ap), PieceLE);
            && Swept(ps, ap)
            && (forall p :: p in ps <==> p in Contained(rows, ap))
            && (forall x :: CoverCount(ps, x) == CoverCount(Contained(rows, ap), x))
  {
    PieceOrder();
    SortBySorts(Contained(rows, ap), PieceLE);
    ContainedFacts(rows, ap);
    forall x ensures CoverCount(SortBy(Contained(rows, ap), PieceLE), x) == CoverCount(Contained(rows, ap), x) {
      CoverSort(Contained(rows, ap), x);
    }
  }

  /** Sweep exactness: once one row is contained, the addresses in reported gaps are
      exactly the aperture's addresses that no contained row covers. */
  lemma GapsExact(rows: seq<Row>, ap: Aperture, x: int)
    requires Contained(rows, ap) != []
    ensures InGap(Tiling(rows, ap), x) <==> ap.0 <= x < ap.1 && CoverCount(Contained(rows, ap), x) == 0
  {
    SortedContained(rows, ap);
    SweepGaps(SortBy(Contained(rows, ap), PieceLE), ap.0, ap, x);
  }

  /** For rows of positive size, the tiling reports nothing if and only if the
      contained rows partition the aperture. */
  lemma TilingExact(rows: seq<Row>, ap: Aperture)
    requires Contained(rows, ap) != [] && ap.0 <= ap.1
    requires forall p :: p in Contained(rows, ap) ==> p.lo < p.hi
    ensures Tiling(rows, ap) == [] <==> Partitions(Contained(rows, ap), ap)
  {
    var ps := SortBy(Contained(rows, ap), PieceLE);
    SortedContained(rows, ap);
    if Tiling(rows, ap) == [] { CleanTilingPartitions(rows, ap); }
    if Partitions(Contained(rows, ap), ap) {
      assert forall x: int :: CoverCount(ps, x) == CoverCount(Contained(rows, ap), x);
      PartitionSweepsClean(ps, ap.0, ap);
    }
  }

  /** A clean report means a partition whatever the sizes. */
  lemma CleanTilingPartitions(rows: seq<Row>, ap: Aperture)
    requires Contained(rows, ap) != [] && Tiling(rows, ap) == []
    ensures Partitions(Contained(rows, ap), ap)
  {
    var ps := SortBy(Contained(rows, ap), PieceLE);
    SortedContained(rows, ap);
    assert Sweep(ps, ap.0, ap) == [];
    forall x: int ensures CoverCount(Contained(rows, ap), x) == if ap.0 <= x < ap.1 then 1 else 0 {
      CleanSweepCovers(ps, ap.0, ap, x);
    }
  }

  // ------------------------------------------------------------- the top of the window

  lemma {:induction false} SpansFacts(rows: seq<Row>)
    ensures forall s :: s in Spans(rows) <==> exists r :: r in rows && r.Row? && SpanOf(r) == Some(s)
  {
    if rows != [] {
      SpansFacts(rows[1..]);
      assert rows == [rows[0]] + rows[1..];
    }
  }

  lemma {:induction false} EndingFacts(spans: seq<Span>, top: int, sized: bool)
    ensures forall s :: s in Ending(spans, top, sized) <==> s in spans && s.hi == top && (sized ==> s.hi > s.lo)
  {
    if spans != [] {
      EndingFacts(spans[1..], top, sized);
      assert spans == [spans[0]] + spans[1..];
    }
  }

  lemma {:induction false} WritableTopsFacts(atTop: seq<Span>)
    requires WritableTops(atTop) == []
    ensures forall s :: s in atTop ==> s.wa != Some(RUNTIME)
  {
    if atTop != [] {
      WritableTopsFacts(atTop[1..]);
      assert atTop == [atTop[0]] + atTop[1..];
    }
  }

  /** The row that owns the aperture top: the smallest row ending there. */
  ghost predicate OwnsTop(s: Span, rows: seq<Row>, ap: Aperture) {
    && s in Spans(rows) && s.lo < s.hi == ap.1
    && forall t :: t in Spans(rows) && t.lo < t.hi == ap.1 ==> s.hi - s.lo <= t.hi - t.lo
  }

  lemma CleanParts(rows: seq<Row>, ap: Aperture)
    requires Spans(rows) != [] && PresetFailures(rows, Some(ap)) == []
    ensures TopFailures(SortBy(Ending(Spans(rows), ap.1, true), TopLE), ap.1) == [] && Tiling(rows, ap) == []
  {
  }

  /** The sorted rows at the top start with the smallest. */
  lemma SmallestFirst(ends: seq<Span>)
    ensures var atTop := SortBy(ends, TopLE);
            && (forall s :: s in atTop <==> s in ends)
            && (forall t :: t in atTop ==> atTop[0].hi - atTop[0].lo <= t.hi - t.lo)
  {
    TopOrder();
    SortBySorts(ends, TopLE);
    var atTop := SortBy(ends, TopLE);
    forall k | 0 <= k < |atTop| ensures atTop[0].hi - atTop[0].lo <= atTop[k].hi - atTop[k].lo {
      if k > 0 { assert TopLE(atTop[0], atTop[k]); }
    }
  }

  lemma TopFailuresFacts(atTop: seq<Span>, top: int)
    requires TopFailures(atTop, top) == []
    ensures atTop != [] && atTop[0].name == ATOC && atTop[0] in atTop && forall s :: s in atTop ==> s.wa != Some(RUNTIME)
  {
    WritableTopsFacts(atTop);
  }

  lemma TopOwner(rows: seq<Row>, ap: Aperture) returns (owner: Span)
    requires Spans(rows) != [] && PresetFailures(rows, Some(ap)) == []
    ensures OwnsTop(owner, rows, ap) && owner.name == ATOC
    ensures forall s :: s in Spans(rows) && s.lo < s.hi == ap.1 ==> s.wa != Some(RUNTIME)
    ensures Tiling(rows, ap) == []
  {
    var ends := Ending(Spans(rows), ap.1, true);
    CleanParts(rows, ap);
    EndingFacts(Spans(rows), ap.1, true);
    SmallestFirst(ends);
    TopFailuresFacts(SortBy(ends, TopLE), ap.1);
    owner := SortBy(ends, TopLE)[0];
  }

  /** No row's base is a YAML boolean. */
  ghost predicate PlainBases(rows: seq<Row>) { forall r :: r in rows && r.Row? ==> !r.base.Flag? }

  /** The span is listed from a row whose base is no YAML boolean. */
  ghost predicate Addressed(rows: seq<Row>, s: Span) { exists r :: r in rows && r.Row? && !r.base.Flag? && SpanOf(r) == Some(s) }

  /** An addressed row inside the aperture is the whole device or a contained piece. */
  lemma RowInside(rows: seq<Row>, ap: Aperture, s: Span, x: int)
    requires Addressed(rows, s) && s.lo <= x < s.hi && ap.0 <= x < ap.1
    ensures (s.lo == ap.0 && s.hi == ap.1) || Piece(s.lo, s.hi, s.name) in Contained(rows, ap)
  {
    var r :| r in rows && r.Row? && !r.base.Flag? && SpanOf(r) == Some(s);
    if !(s.lo == ap.0 && s.hi == ap.1) {
      SpanPiece(r, ap, s, x);
      PieceKept(rows, ap, r, Piece(s.lo, s.hi, s.name));
    }
  }

  lemma SpanPiece(r: Row, ap: Aperture, s: Span, x: int)
    requires r.Row? && !r.base.Flag? && SpanOf(r) == Some(s)
    requires s.lo <= x < s.hi && ap.0 <= x < ap.1 && !(s.lo == ap.0 && s.hi == ap.1)
    ensures PieceOf(r, ap) == Some(Piece(s.lo, s.hi, s.name))
  {
  }

  lemma PieceKept(rows: seq<Row>, ap: Aperture, r: Row, p: Piece)
    requires r in rows && PieceOf(r, ap) == Some(p)
    ensures p in Contained(rows, ap)
  {
    ContainedFacts(rows, ap);
  }

  /** The piece that reaches the top of a partitioned aperture. */
  lemma TopPiece(ps: seq<Piece>, ap: Aperture) returns (p: Piece)
    requires Partitions(ps, ap) && ap.0 < ap.1
    ensures p in ps && ap.0 <= p.lo < p.hi == ap.1
  {
    CoverWitness(ps, ap.1 - 1);
    assert CoverCount(ps, ap.1 - 1) == 1;
    p :| p in ps && Covers(p, ap.1 - 1);
    PieceWithin(ps, ap, p);
  }

  lemma PieceWithin(ps: seq<Piece>, ap: Aperture, p: Piece)
    requires Partitions(ps, ap) && p in ps && p.lo < p.hi
    ensures ap.0 <= p.lo && p.hi <= ap.1
  {
    CoverWitness(ps, p.lo);
    CoverWitness(ps, p.hi - 1);
    assert Covers(p, p.lo) && Covers(p, p.hi - 1);
    assert CoverCount(ps, p.lo) == if ap.0 <= p.lo < ap.1 then 1 else 0;
    assert CoverCount(ps, p.hi - 1) == if ap.0 <= p.hi - 1 < ap.1 then 1 else 0;
  }

  lemma PieceRow(rows: seq<Row>, ap: Aperture, p: Piece) returns (s: Span)
    requires p in Contained(rows, ap)
    ensures s in Spans(rows) && s.lo == p.lo && s.hi == p.hi
  {
    ContainedFacts(rows, ap);
    var r :| r in rows && PieceOf(r, ap) == Some(p);
    s := SpanOf(r).value;
    SpansFacts(rows);
  }

  /** A whole-device owner of the top leaves no contained piece: a smaller row would own it. */
  lemma AliasOwnerMeansEmpty(rows: seq<Row>, ap: Aperture, owner: Span)
    requires OwnsTop(owner, rows, ap) && owner.lo == ap.0 && ap.0 < ap.1
    requires Tiling(rows, ap) == []
    ensures Contained(rows, ap) == []
  {
    if Contained(rows, ap) != [] {
      CleanTilingPartitions(rows, ap);
      var p := TopPiece(Contained(rows, ap), ap);
      var s := PieceRow(rows, ap, p);
      ContainedFacts(rows, ap);
    }
  }

  predicate Holds(s: Span, x: int) { s.lo <= x < s.hi }

  ghost predicate Share(a: Span, b: Span) { exists x: int :: Holds(a, x) && Holds(b, x) }

  lemma WritableOutside(rows: seq<Row>, ap: Aperture, owner: Span, s: Span)
    requires ap.0 < ap.1 && Tiling(rows, ap) == []
    requires OwnsTop(owner, rows, ap) && Addressed(rows, owner) && Addressed(rows, s) && s.hi != ap.1
    ensures !Share(owner, s)
  {
    RowInside(rows, ap, owner, ap.1 - 1);
    if owner.lo == ap.0 { AliasOwnerMeansEmpty(rows, ap, owner); }
    var ps := Contained(rows, ap);
    var o := Piece(owner.lo, owner.hi, owner.name);
    if ps != [] { CleanTilingPartitions(rows, ap); }
    if o in ps { PieceWithin(ps, ap, o); }
    forall x: int | Holds(owner, x) ensures !Holds(s, x) {
      if Holds(s, x) {
        RowInside(rows, ap, s, x);
        CoverTwo(ps, x, o, Piece(s.lo, s.hi, s.name));
      }
    }
  }

  /** End to end: when the aperture resolves to a window and the preset check reports
      nothing, the smallest row at the aperture top is named `atoc`, and no row the
      application may write at run time shares an address with it. */
  lemma BootTableBandSafe(rows: seq<Row>, ap: Aperture)
    requires ap.0 < ap.1 && PlainBases(rows) && Spans(rows) != []
    requires PresetFailures(rows, Some(ap)) == []
    ensures exists owner :: OwnsTop(owner, rows, ap) && owner.name == ATOC
    ensures forall owner, s :: OwnsTop(owner, rows, ap) && s in Spans(rows) && s.wa == Some(RUNTIME) ==> !Share(owner, s)
  {
    var first := TopOwner(rows, ap);
    forall owner, s | OwnsTop(owner, rows, ap) && s in Spans(rows) && s.wa == Some(RUNTIME) ensures !Share(owner, s) {
      if s.hi == ap.1 {
        assert !(s.lo < s.hi);
      } else {
        AllAddressed(rows, owner);
        AllAddressed(rows, s);
        WritableOutside(rows, ap, owner, s);
      }
    }
  }

  lemma AllAddressed(rows: seq<Row>, s: Span)
    requires PlainBases(rows) && s in Spans(rows)
    ensures Addressed(rows, s)
  {
    SpansFacts(rows);
  }

  /** The runtime-writable rows with a boolean base all end at or below the band. */
  ghost predicate FlagsBelow(rows: seq<Row>, owner: Span) {
    forall r :: r in rows && r.Row? && r.base.Flag? && SpanOf(r).Some? && r.writeAuthority == Some(RUNTIME) ==> SpanOf(r).value.hi <= owner.lo
  }

  ghost predicate BandKept(rows: seq<Row>, owner: Span) {
    forall s :: s in Spans(rows) && s.wa == Some(RUNTIME) ==> !Share(owner, s)
  }

  /** With boolean bases allowed, a clean report over a window keeps the band if and only
      if every runtime-writable row with a boolean base ends at or below it. */
  lemma BandSafeExact(rows: seq<Row>, ap: Aperture, owner: Span)
    requires ap.0 < ap.1 && PresetFailures(rows, Some(ap)) == []
    requires OwnsTop(owner, rows, ap) && Addressed(rows, owner) && owner.lo >= 1
    ensures BandKept(rows, owner) <==> FlagsBelow(rows, owner)
  {
    var first := TopOwner(rows, ap);
    if FlagsBelow(rows, owner) {
      forall s | s in Spans(rows) && s.wa == Some(RUNTIME) ensures !Share(owner, s) { KeptRow(rows, ap, owner, s); }
    }
    if BandKept(rows, owner) {
      forall r | r in rows && r.Row? && r.base.Flag? && SpanOf(r).Some? && r.writeAuthority == Some(RUNTIME)
        ensures SpanOf(r).value.hi <= owner.lo
      {
        var s := SpanOf(r).value;
        SpansFacts(rows);
        assert s in Spans(rows) && !Share(owner, s);
        assert Holds(owner, owner.lo) && s.lo <= 1;
        assert Holds(s, owner.lo) ==> Share(owner, s);
      }
    }
  }

  lemma KeptRow(rows: seq<Row>, ap: Aperture, owner: Span, s: Span)
    requires ap.0 < ap.1 && Tiling(rows, ap) == [] && FlagsBelow(rows, owner)
    requires OwnsTop(owner, rows, ap) && Addressed(rows, owner)
    requires s in Spans(rows) && s.wa == Some(RUNTIME) && !(s.lo < s.hi == ap.1)
    ensures !Share(owner, s)
  {
    SpansFacts(rows);
    var r :| r in rows && r.Row? && SpanOf(r) == Some(s);
    if !r.base.Flag? && s.hi != ap.1 { WritableOutside(rows, ap, owner, s); }
  }

  /** What the gate is for, over one map with plain bases. */
  ghost predicate Guarded(rows: seq<Row>, ap: Aperture) {
    PlainBases(rows) && Spans(rows) != [] && PresetFailures(rows, Some(ap)) == [] ==>
      forall owner :: OwnsTop(owner, rows, ap) ==> BandKept(rows, owner)
  }

  /** The gate guards the band of every such map if and only if the aperture is a
      non-empty window. */
  lemma ApertureExact(ap: Aperture)
    ensures (forall rows :: Guarded(rows, ap)) <==> ap.0 < ap.1
  {
    if ap.0 < ap.1 {
      forall rows ensures Guarded(rows, ap) {
        if PlainBases(rows) && Spans(rows) != [] && PresetFailures(rows, Some(ap)) == [] { BootTableBandSafe(rows, ap); }
      }
    } else {
      EmptyUnguarded(ap);
      assert !Guarded(EmptySample(ap.1), ap);
    }
  }

  // A map no empty aperture guards: a second `atoc` row far above, the band below the
  // top, and a writable row across the band's lower end.

  function Above(top: int): int { Max(top, A32_CEILING) }

  function AboveRow(top: int): Row { Row(ATOC, Address(Above(top)), None, Some(1), None, Some(false)) }

  function BandRow(top: int): Row { Row(ATOC, Address(top - 32 * 1024), None, Some(32), None, Some(false)) }

  function DataRow(top: int): Row { Row("storage", Address(top - 33 * 1024), None, Some(2), Some(RUNTIME), Some(false)) }

  function EmptySample(top: int): seq<Row> { [AboveRow(top), BandRow(top), DataRow(top)] }

  function AboveSpan(top: int): Span { Span(Above(top), Above(top) + 1024, ATOC, None) }

  function BandSpan(top: int): Span { Span(top - 32 * 1024, top, ATOC, None) }

  function DataSpan(top: int): Span { Span(top - 33 * 1024, top - 31 * 1024, "storage", Some(RUNTIME)) }

  lemma EmptySpans(top: int)
    ensures Spans(EmptySample(top)) == [AboveSpan(top), BandSpan(top), DataSpan(top)]
  {
    var a, b, d := AboveRow(top), BandRow(top), DataRow(top);
    assert SpanOf(a) == Some(AboveSpan(top)) && SpanOf(b) == Some(BandSpan(top)) && SpanOf(d) == Some(DataSpan(top));
    assert [d][1..] == [] && [b, d][1..] == [d] && [a, b, d][1..] == [b, d];
    assert Spans([d]) == [DataSpan(top)];
    assert Spans([b, d]) == [BandSpan(top)] + Spans([d]);
    assert Spans([a, b, d]) == [AboveSpan(top)] + Spans([b, d]);
  }

  lemma OneAtTop(a: Span, b: Span, d: Span, top: int)
    requires a.hi != top && d.hi != top && b.lo < b.hi == top && b.name == ATOC == a.name && b.wa.None?
    ensures Ending([a, b, d], top, true) == [b] && SortBy([b], TopLE) == [b]
    ensures TopFailures([b], top) == [] && BandBase([a, b, d]) == Some(a.lo)
  {
    assert [a, b, d][1..] == [b, d] && [b, d][1..] == [d] && [d][1..] == [] && [b][1..] == [];
    assert Ending([d], top, true) == [];
    assert Ending([b, d], top, true) == [b];
    assert WritableTops([]) == [];
    assert WritableTops([b]) == [];
  }

  lemma {:induction false} CeilingsHigher(windows: seq<(string, int, int)>, band: int, higher: int)
    requires band <= higher && Ceilings(windows, band) == []
    ensures Ceilings(windows, higher) == []
    decreases windows
  {
    if windows != [] { CeilingsHigher(windows[1..], band, higher); }
  }

  lemma {:induction false} Unlisted(rows: seq<Row>, ap: Aperture)
    requires forall r :: r in rows ==> PieceOf(r, ap).None? && ClassFailure(r, ap) == []
    ensures Contained(rows, ap) == [] && Classes(rows, ap) == []
  {
    if rows != [] {
      assert rows[0] in rows;
      assert forall r :: r in rows[1..] ==> r in rows;
      Unlisted(rows[1..], ap);
    }
  }

  lemma EmptyClean(ap: Aperture)
    requires ap.1 <= ap.0
    ensures PresetFailures(EmptySample(ap.1), Some(ap)) == []
  {
    var top := ap.1;
    EmptySpans(top);
    OneAtTop(AboveSpan(top), BandSpan(top), DataSpan(top), top);
    WindowsBelowBand();
    CeilingsHigher(WINDOWS, A32_CEILING, Above(top));
    EmptyUnlisted(ap);
  }

  lemma EmptyUnlisted(ap: Aperture)
    requires ap.1 <= ap.0
    ensures Contained(EmptySample(ap.1), ap) == [] && Classes(EmptySample(ap.1), ap) == []
  {
    var top := ap.1;
    assert PieceOf(AboveRow(top), ap).None? && PieceOf(BandRow(top), ap).None? && PieceOf(DataRow(top), ap).None?;
    assert ClassFailure(AboveRow(top), ap) == [] && ClassFailure(BandRow(top), ap) == [] && ClassFailure(DataRow(top), ap) == [];
    Unlisted(EmptySample(top), ap);
  }

  lemma EmptyUnguarded(ap: Aperture)
    requires ap.1 <= ap.0
    ensures !Guarded(EmptySample(ap.1), ap)
  {
    var rows, b, d := EmptySample(ap.1), BandSpan(ap.1), DataSpan(ap.1);
    EmptyClean(ap);
    EmptySpans(ap.1);
    assert Spans(rows)[1] == b && Spans(rows)[2] == d;
    BandOwns(rows, ap, AboveSpan(ap.1), b, d);
    assert Holds(b, ap.1 - 32 * 1024) && Holds(d, ap.1 - 32 * 1024);
    assert Share(b, d) && !BandKept(rows, b);
    assert PlainBases(rows);
  }

  lemma BandOwns(rows: seq<Row>, ap: Aperture, a: Span, b: Span, d: Span)
    requires Spans(rows) == [a, b, d] && b.lo < b.hi == ap.1 && a.hi != ap.1 && d.hi != ap.1
    ensures OwnsTop(b, rows, ap)
  {
    assert Spans(rows)[1] == b;
  }

  lemma WindowsBelowBand()
    ensures Ceilings(WINDOWS, A32_CEILING) == []
  {
    var w2 := WINDOWS[2..];
    assert w2[1..] == [] && Ceilings(w2, A32_CEILING) == [];
    var w1 := WINDOWS[1..];
    assert w1[1..] == w2 && Ceilings(w1, A32_CEILING) == [];
  }

  /** The two rows of the examples below, checked against an aperture that no piece is
      contained in: nothing is reported. */
  lemma TwoRowsPass(data: Row, s: Span, ap: Aperture)
    requires data.Row? && SpanOf(data) == Some(s) && s.hi != MRAM_END && s.name != ATOC && ap.1 == MRAM_END
    requires PieceOf(data, ap).None? && PieceOf(BAND, ap).None?
    requires ClassFailure(data, ap) == [] && ClassFailure(BAND, ap) == []
    ensures Spans([BAND, data]) == [OWNER, s]
    ensures PresetFailures([BAND, data], Some(ap)) == []
    ensures OwnsTop(OWNER, [BAND, data], ap)
  {
    var rows := [BAND, data];
    TwoSpans(data, s);
    assert rows[1..] == [data] && [data][1..] == [];
    assert Contained([data], ap) == [];
    assert Contained(rows, ap) == [];
    assert Classes([data], ap) == [];
    assert Classes(rows, ap) == [];
    TwoTops(s);
    WindowsBelowBand();
    assert BandBase([OWNER, s]) == Some(A32_CEILING);
  }

  const BAND := Row(ATOC, Address(A32_CEILING), None, Some(32), None, Some(false))
  const OWNER := Span(A32_CEILING, MRAM_END, ATOC, None)

  lemma TwoSpans(data: Row, s: Span)
    requires data.Row? && SpanOf(data) == Some(s)
    ensures Spans([BAND, data]) == [OWNER, s]
  {
    assert SpanOf(BAND) == Some(OWNER);
    assert [BAND, data][1..] == [data] && [data][1..] == [];
    assert Spans([data]) == [s];
    assert Spans([BAND, data]) == [OWNER] + Spans([data]);
  }

  lemma TwoTops(s: Span)
    requires s.hi != MRAM_END
    ensures Ending([OWNER, s], MRAM_END, true) == [OWNER] && SortBy([OWNER], TopLE) == [OWNER] && TopFailures([OWNER], MRAM_END) == []
  {
    assert [OWNER, s][1..] == [s] && [s][1..] == [] && [OWNER][1..] == [];
    assert Ending([s], MRAM_END, true) == [];
    assert WritableTops([]) == [];
    assert WritableTops([OWNER]) == [];
  }

  /** A clean report, and a runtime-writable row that shares an address with the owner. */
  ghost predicate Exposed(rows: seq<Row>, ap: Aperture, owner: Span, s: Span) {
    && PresetFailures(rows, Some(ap)) == [] && OwnsTop(owner, rows, ap)
    && s in Spans(rows) && s.wa == Some(RUNTIME) && Share(owner, s)
  }

  lemma SampleExposed(rows: seq<Row>, ap: Aperture, s: Span)
    requires PresetFailures(rows, Some(ap)) == [] && OwnsTop(OWNER, rows, ap)
    requires Spans(rows) == [OWNER, s] && s.wa == Some(RUNTIME) && s.lo <= A32_CEILING < s.hi
    ensures Exposed(rows, ap, OWNER, s)
  {
    assert Spans(rows)[1] == s;
    assert Holds(OWNER, A32_CEILING) && Holds(s, A32_CEILING);
  }

  /** The window must not be empty: with a zero-sized aperture a clean report leaves
      the band writable. */
  lemma EmptyApertureUnguarded()
    ensures exists rows, ap: Aperture, owner, s :: ap.0 == ap.1 && PlainBases(rows) && Exposed(rows, ap, owner, s)
  {
    var data := Row("storage", Address(A32_CEILING - 1024), None, Some(2), Some(RUNTIME), Some(false));
    var s := Span(A32_CEILING - 1024, A32_CEILING + 1024, "storage", Some(RUNTIME));
    var rows, ap: Aperture := [BAND, data], (MRAM_END, MRAM_END);
    assert PlainBases(rows);
    TwoRowsPass(data, s, ap);
    SampleExposed(rows, ap, s);
  }

  /** Nor may a base be a YAML boolean: such a row is listed as a span at address 0 or
      1, but the tiling skips it as having no address. */
  lemma BooleanBaseUnguarded()
    ensures exists rows, ap: Aperture, owner, s :: ap.0 < ap.1 && Exposed(rows, ap, owner, s)
  {
    var data := Row("storage", Flag(true), Some(2054), None, Some(RUNTIME), Some(false));
    var s := Span(1, 1 + 2054 * 1024 * 1024, "storage", Some(RUNTIME));
    var ap: Aperture := (A32_CEILING, MRAM_END);
    TwoRowsPass(data, s, ap);
    SampleExposed([BAND, data], ap, s);
  }
}
