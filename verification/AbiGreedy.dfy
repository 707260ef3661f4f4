/** The matcher pairs greedily: when that loses nothing, and two snapshots on which it
    reports a loss that another pairing explains. */
module AbiGreedy {
  import opened PyText
  import opened AbiDiff
  import opened AbiDiffLaws

  /** No gained entry matches two losses in name and content. */
  ghost predicate OneClaimEach(removed: seq<Entry>, added: seq<Entry>, g: Graph) {
    forall a, i, j :: a in added && 0 <= i < j < |removed| ==> !(Fits(removed[i], a, g, true) && Fits(removed[j], a, g, true))
  }

  lemma {:induction false} GainedBy(ds: seq<Decision>, a: Entry) returns (k: nat)
    requires a in GainedOf(ds)
    ensures k < |ds| && ds[k].Move? && ds[k].gained == a
  {
    if ds[0].Move? && ds[0].gained == a {
      k := 0;
    } else {
      k := GainedBy(ds[1..], a);
      k := k + 1;
    }
  }

  lemma TakenOrLeft(un: seq<Entry>, left: seq<Entry>, gained: seq<Entry>, a: Entry)
    requires multiset(un) == multiset(left) + multiset(gained) && a in un
    ensures a in left || a in gained
  {
    assert a in multiset(un);
    assert a in multiset(left) || a in multiset(gained);
  }

  /** When the hash fixes the kind and no gained entry is claimed by two losses, every
      loss with an exact candidate is reported moved: nothing explainable is lost. */
  lemma NoExplainableLoss(removed: seq<Entry>, added: seq<Entry>, g: Graph, i: nat, a: Entry)
    requires HashFixesKind(removed + added) && OneClaimEach(removed, added, g)
    requires i < |removed| && a in added && Fits(removed[i], a, g, true)
    ensures var d := Decide(removed, added, removed, added, g).0; |d| == |removed| && d[i].Move?
  {
    var d := Decide(removed, added, removed, added, g);
    DecideFacts(removed, added, removed, added, g);
    if d.0[i].Loss? {
      assert d.0[i] in d.0 && d.0[i].lost == removed[i];
      TakenOrLeft(added, d.1, GainedOf(d.0), a);
      var k := GainedBy(d.0, a);
      assert d.0[k] in d.0 && d.0[k].lost == removed[k];
      ChangedMoveTakesNoOther(removed, added, g, k, i);
      assert false;
    }
  }

  // -------------------------------------------------------------- two snapshots

  lemma OneChar(c: char, d: char)
    requires c <= d
    ensures LexLE([c], [d])
  {
    assert [c][1..] == [] && [d][1..] == [];
  }

  const A := ['a']
  const B := ['b']
  const C := ['c']
  const D := ['d']

  lemma FourNames()
    ensures SortedKeys({A, B, C, D}) == [A, B, C, D]
  {
    forall c: char, d: char | c <= d ensures LexLE([c], [d]) { OneChar(c, d); }
    SortedKeysCons({D}, D);
    assert {D} - {D} == {};
    SortedKeysCons({C, D}, C);
    assert {C, D} - {C} == {D};
    SortedKeysCons({B, C, D}, B);
    assert {B, C, D} - {B} == {C, D};
    SortedKeysCons({A, B, C, D}, A);
    assert {A, B, C, D} - {A} == {B, C, D};
  }

  function With(x: string, rec: Record): Header { map[Macros := map[x := rec]] }

  const NONE: Header := map[]

  lemma NoSymbols(name: string, cat: Category)
    ensures VisitSyms(name, cat, map[], map[], Symbols(map[], map[])) == NOTHING
  {
    var e: Table := map[];
    assert e.Keys + e.Keys == {};
  }

  lemma OneSymbol(x: string, p: Table, c: Table)
    requires p.Keys + c.Keys == {x}
    ensures Symbols(p, c) == [x]
  {
    LexTotal(x, x);
    SortedKeysCons({x}, x);
    assert {x} - {x} == {};
  }

  lemma Lost(name: string, x: string, rec: Record)
    ensures VisitCats(name, With(x, rec), NONE, CATEGORIES) == Tally([], [Entry(Key(name, Macros, x), rec)], [])
  {
    var t: Table, e: Table := map[x := rec], map[];
    OneSymbol(x, t, e);
    assert [x][1..] == [];
    assert VisitSyms(name, Macros, t, e, [x]) == Tally([], [Entry(Key(name, Macros, x), rec)], []);
    OnlyMacros(name, With(x, rec), NONE);
  }

  lemma Gained(name: string, x: string, rec: Record)
    ensures VisitCats(name, NONE, With(x, rec), CATEGORIES) == Tally([], [], [Entry(Key(name, Macros, x), rec)])
  {
    var t: Table, e: Table := map[x := rec], map[];
    OneSymbol(x, e, t);
    assert [x][1..] == [];
    assert VisitSyms(name, Macros, e, t, [x]) == Tally([], [], [Entry(Key(name, Macros, x), rec)]);
    OnlyMacros(name, NONE, With(x, rec));
  }

  /** A header pair with macros only is visited for its macros only. */
  lemma OnlyMacros(name: string, p: Header, c: Header)
    requires forall cat :: cat != Macros ==> TableOf(p, cat) == map[] && TableOf(c, cat) == map[]
    ensures VisitCats(name, p, c, CATEGORIES)
         == VisitSyms(name, Macros, TableOf(p, Macros), TableOf(c, Macros), Symbols(TableOf(p, Macros), TableOf(c, Macros)))
  {
    var m := VisitSyms(name, Macros, TableOf(p, Macros), TableOf(c, Macros), Symbols(TableOf(p, Macros), TableOf(c, Macros)));
    forall cat ensures VisitSyms(name, cat, map[], map[], Symbols(map[], map[])) == NOTHING { NoSymbols(name, cat); }
    PlusAssoc(m, NOTHING, NOTHING);
    assert CATEGORIES[1..] == [Typedefs, Macros, Variables] && CATEGORIES[1..][1..] == [Macros, Variables];
    assert [Macros, Variables][1..] == [Variables] && [Variables][1..] == [];
    assert VisitCats(name, p, c, [Variables]) == NOTHING;
    assert VisitCats(name, p, c, [Macros, Variables]) == m;
    assert VisitCats(name, p, c, [Typedefs, Macros, Variables]) == m;
  }

  function Before(x: string, rec: Record): Snapshot { map[A := With(x, rec), B := With(x, rec), C := NONE, D := NONE] }

  function Now(x: string, rec: Record): Snapshot { map[A := NONE, B := NONE, C := With(x, rec), D := With(x, rec)] }

  lemma HeaderVisit(name: string, p: Snapshot, c: Snapshot, v: Tally)
    requires name in p && name in c && VisitCats(name, p[name], c[name], CATEGORIES) == v
    ensures VisitHeader(name, p, c, map[]) == v
  {
  }

  lemma CollectStep(names: seq<string>, p: Snapshot, c: Snapshot, v: Tally, later: Tally)
    requires names != [] && (forall n :: n in names ==> n in p)
    requires VisitHeader(names[0], p, c, map[]) == v && Collect(names[1..], p, c, map[]) == later
    ensures Collect(names, p, c, map[]) == Plus(v, later)
  {
  }

  lemma HeaderAt(x: string, rec: Record)
    ensures var p, c := Before(x, rec), Now(x, rec);
            && p[A] == With(x, rec) && p[B] == With(x, rec) && p[C] == NONE && p[D] == NONE
            && c[A] == NONE && c[B] == NONE && c[C] == With(x, rec) && c[D] == With(x, rec)
  {
    assert A[0] != B[0] && A[0] != C[0] && A[0] != D[0] && B[0] != C[0] && B[0] != D[0] && C[0] != D[0];
  }

  lemma FourSlices()
    ensures [A, B, C, D][1..] == [B, C, D] && [B, C, D][1..] == [C, D] && [C, D][1..] == [D] && [D][1..] == []
  {
  }

  lemma FourTallies(r0: Entry, r1: Entry, a0: Entry, a1: Entry)
    ensures Plus(Tally([], [r0], []), Plus(Tally([], [r1], []), Plus(Tally([], [], [a0]), Plus(Tally([], [], [a1]), NOTHING))))
         == Tally([], [r0, r1], [a0, a1])
  {
    assert [a1] + [] == [a1] && [a0] + [a1] == [a0, a1] && [r1] + [] == [r1] && [r0] + [r1] == [r0, r1];
  }

  lemma Collected(x: string, rec: Record)
    ensures var r0, r1 := Entry(Key(A, Macros, x), rec), Entry(Key(B, Macros, x), rec);
            var a0, a1 := Entry(Key(C, Macros, x), rec), Entry(Key(D, Macros, x), rec);
            Collect([A, B, C, D], Before(x, rec), Now(x, rec), map[]) == Tally([], [r0, r1], [a0, a1])
  {
    var r0, r1 := Entry(Key(A, Macros, x), rec), Entry(Key(B, Macros, x), rec);
    var a0, a1 := Entry(Key(C, Macros, x), rec), Entry(Key(D, Macros, x), rec);
    var p, c := Before(x, rec), Now(x, rec);
    HeaderAt(x, rec);
    FourSlices();
    Lost(A, x, rec);
    Lost(B, x, rec);
    Gained(C, x, rec);
    Gained(D, x, rec);
    FourCollected(p, c, Tally([], [r0], []), Tally([], [r1], []), Tally([], [], [a0]), Tally([], [], [a1]));
    FourTallies(r0, r1, a0, a1);
  }

  lemma FourCollected(p: Snapshot, c: Snapshot, v1: Tally, v2: Tally, v3: Tally, v4: Tally)
    requires (forall n :: n in [A, B, C, D] ==> n in p && n in c) && A in p && B in p && C in p && D in p && A in c && B in c && C in c && D in c
    requires VisitCats(A, p[A], c[A], CATEGORIES) == v1 && VisitCats(B, p[B], c[B], CATEGORIES) == v2
    requires VisitCats(C, p[C], c[C], CATEGORIES) == v3 && VisitCats(D, p[D], c[D], CATEGORIES) == v4
    ensures Collect([A, B, C, D], p, c, map[]) == Plus(v1, Plus(v2, Plus(v3, Plus(v4, NOTHING))))
  {
    FourSlices();
    HeaderVisit(A, p, c, v1);
    HeaderVisit(B, p, c, v2);
    HeaderVisit(C, p, c, v3);
    HeaderVisit(D, p, c, v4);
    CollectStep([D], p, c, v4, NOTHING);
    CollectStep([C, D], p, c, v3, Plus(v4, NOTHING));
    CollectStep([B, C, D], p, c, v2, Plus(v3, Plus(v4, NOTHING)));
    CollectStep([A, B, C, D], p, c, v1, Plus(v2, Plus(v3, Plus(v4, NOTHING))));
  }

  lemma Names(x: string, rec: Record)
    ensures HeaderNames(Before(x, rec), Now(x, rec)) == [A, B, C, D]
  {
    assert Before(x, rec).Keys + Now(x, rec).Keys == {A, B, C, D};
    FourNames();
  }

  const LINKS: Graph := map[A := [C, D], B := [C]]

  lemma SampleFits(x: string, rec: Record)
    ensures var r0, r1 := Entry(Key(A, Macros, x), rec), Entry(Key(B, Macros, x), rec);
            var a0, a1 := Entry(Key(C, Macros, x), rec), Entry(Key(D, Macros, x), rec);
            && Fits(r0, a0, LINKS, true) && Fits(r0, a1, LINKS, true) && Fits(r1, a0, LINKS, true)
            && !Fits(r1, a1, LINKS, true) && !Fits(r1, a1, LINKS, false)
  {
    assert A[0] != B[0] && C[0] != D[0];
    assert Edges(LINKS, A) == [C, D] && Edges(LINKS, B) == [C];
    assert [C, D][0] == C && [C, D][1] == D && [C][0] == C;
  }

  lemma DiffOf(x: string, rec: Record)
    ensures var r0, r1 := Entry(Key(A, Macros, x), rec), Entry(Key(B, Macros, x), rec);
            var a0, a1 := Entry(Key(C, Macros, x), rec), Entry(Key(D, Macros, x), rec);
            Diff(Before(x, rec), Now(x, rec), LINKS, map[]) == [] + MatchLines([r0, r1], [a0, a1], LINKS, map[])
  {
    Names(x, rec);
    Collected(x, rec);
  }

  /** Two snapshots whose diff reports a symbol lost, although pairing the losses the
      other way round explains both. */
  lemma GreedyLosesOne(x: string, rec: Record)
    ensures var r0, r1 := Entry(Key(A, Macros, x), rec), Entry(Key(B, Macros, x), rec);
            var a0, a1 := Entry(Key(C, Macros, x), rec), Entry(Key(D, Macros, x), rec);
            && Removed(r1.key) in Diff(Before(x, rec), Now(x, rec), LINKS, map[])
            && Gone(a0, Now(x, rec), Before(x, rec)) && Gone(a1, Now(x, rec), Before(x, rec))
            && Fits(r1, a0, LINKS, true) && Fits(r0, a1, LINKS, true)
  {
    var r0, r1 := Entry(Key(A, Macros, x), rec), Entry(Key(B, Macros, x), rec);
    var a0, a1 := Entry(Key(C, Macros, x), rec), Entry(Key(D, Macros, x), rec);
    SampleFits(x, rec);
    FirstTakesFirst(r0, r1, a0, a1, LINKS);
    SecondReported(r0, r1, a0, a1, LINKS);
    DiffOf(x, rec);
    SomeGone(x, rec);
  }

  lemma SecondReported(r0: Entry, r1: Entry, a0: Entry, a1: Entry, g: Graph)
    requires Decide([r0, r1], [a0, a1], [r0, r1], [a0, a1], g).0 == [Move(r0, a0, false), Loss(r1)]
    ensures Removed(r1.key) in MatchLines([r0, r1], [a0, a1], g, map[])
  {
    LossReported(Decide([r0, r1], [a0, a1], [r0, r1], [a0, a1], g).0, map[], 1);
  }

  lemma SomeGone(x: string, rec: Record)
    ensures Gone(Entry(Key(C, Macros, x), rec), Now(x, rec), Before(x, rec))
    ensures Gone(Entry(Key(D, Macros, x), rec), Now(x, rec), Before(x, rec))
  {
    assert TableOf(With(x, rec), Macros) == map[x := rec] && TableOf(NONE, Macros) == map[];
  }
}
