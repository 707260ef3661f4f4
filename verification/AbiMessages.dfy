/** Which lines the snapshot diff writes: each line's exact condition, and that it is
    written once. */
module AbiMessages {
  import opened PyText
  import opened AbiDiff
  import opened AbiDiffLaws

  /** How often a line is written. */
  function Times(ms: seq<Msg>, m: Msg): nat {
    if ms == [] then 0 else (if ms[0] == m then 1 else 0) + Times(ms[1..], m)
  }

  lemma {:induction false} TimesAppend(a: seq<Msg>, b: seq<Msg>, m: Msg)
    ensures Times(a + b, m) == Times(a, m) + Times(b, m)
  {
    if a == [] {
      assert a + b == b;
    } else {
      assert (a + b)[0] == a[0] && (a + b)[1..] == a[1..] + b;
      TimesAppend(a[1..], b, m);
    }
  }

  lemma {:induction false} TimesIn(ms: seq<Msg>, m: Msg)
    ensures Times(ms, m) > 0 <==> m in ms
  {
    if ms != [] {
      assert ms == [ms[0]] + ms[1..];
      TimesIn(ms[1..], m);
    }
  }

  // ---------------------------------------------------------- lines on one symbol

  /** The symbol a CHANGED line or a member line is about. */
  function About(m: Msg): Option<Key> {
    match m
    case Changed(k) => Some(k)
    case MemberDetail(_, _, h, s, _, _) => Some(Key(h, Typedefs, s))
    case _ => None
  }

  function Members(part: Part, r: Record): seq<string> {
    match part case Field => OrEmpty(r.fields) case Enumerator => OrEmpty(r.enumerators)
  }

  /** What a line says of the old and the new record of its symbol: that they differ, or
      that they differ in one member, with both texts. */
  predicate Says(m: Msg, p: Record, c: Record) {
    match m
    case Changed(_) => true
    case MemberDetail(part, i, _, _, was, now) =>
      At(Members(part, p), i) != At(Members(part, c), i) && was == At(Members(part, p), i) && now == At(Members(part, c), i)
    case _ => false
  }

  lemma {:induction false} DetailsTimes(part: Part, header: string, sym: string, p: seq<string>, c: seq<string>, i: nat, m: Msg)
    ensures Times(DetailsFrom(part, header, sym, p, c, i), m)
         == if m.MemberDetail? && m.part == part && m.header == header && m.sym == sym && i <= m.index
               && At(p, m.index) != At(c, m.index) && m.was == At(p, m.index) && m.now == At(c, m.index)
            then 1 else 0
    decreases Longest(p, c) - i
  {
    if i < Longest(p, c) {
      var one := if At(p, i) != At(c, i) then [MemberDetail(part, i, header, sym, At(p, i), At(c, i))] else [];
      DetailsTimes(part, header, sym, p, c, i + 1, m);
      TimesAppend(one, DetailsFrom(part, header, sym, p, c, i + 1), m);
      if one != [] { assert one[1..] == []; }
    }
  }

  lemma MemberTimes(part: Part, header: string, sym: string, p: Option<seq<string>>, c: Option<seq<string>>, m: Msg)
    ensures Times(MemberDiff(part, header, sym, p, c), m)
         == if m.MemberDetail? && m.part == part && m.header == header && m.sym == sym
               && At(OrEmpty(p), m.index) != At(OrEmpty(c), m.index) && m.was == At(OrEmpty(p), m.index) && m.now == At(OrEmpty(c), m.index)
            then 1 else 0
  {
    DetailsTimes(part, header, sym, OrEmpty(p), OrEmpty(c), 0, m);
  }

  lemma FieldTimes(header: string, sym: string, p: Record, c: Record, m: Msg)
    ensures Times(FieldDiff(header, sym, p, c), m)
         == if m.MemberDetail? && m.header == header && m.sym == sym && Says(m, p, c) then 1 else 0
  {
    MemberTimes(Field, header, sym, p.fields, c.fields, m);
    MemberTimes(Enumerator, header, sym, p.enumerators, c.enumerators, m);
    TimesAppend(MemberDiff(Field, header, sym, p.fields, c.fields), MemberDiff(Enumerator, header, sym, p.enumerators, c.enumerators), m);
  }

  /** The line is about this symbol, which both tables hold with different hashes. */
  predicate Told(m: Msg, name: string, cat: Category, p: Table, c: Table, sym: string) {
    && About(m) == Some(Key(name, cat, sym)) && sym in p && sym in c
    && p[sym].hash != c[sym].hash && Says(m, p[sym], c[sym])
  }

  lemma VisitTimes(name: string, cat: Category, p: Table, c: Table, sym: string, m: Msg)
    requires (sym in p || sym in c) && About(m).Some?
    ensures Times(Visit(name, cat, p, c, sym).msgs, m) == if Told(m, name, cat, p, c, sym) then 1 else 0
  {
    if sym in p && sym in c && p[sym].hash != c[sym].hash {
      var head := [Changed(Key(name, cat, sym))];
      var more := if cat == Typedefs then FieldDiff(name, sym, p[sym], c[sym]) else [];
      FieldTimes(name, sym, p[sym], c[sym], m);
      TimesAppend(head, more, m);
      assert head[1..] == [];
    }
  }

  lemma {:induction false} SymsTimes(name: string, cat: Category, p: Table, c: Table, syms: seq<string>, m: Msg)
    requires (forall s :: s in syms ==> s in p || s in c) && Distinct(syms) && About(m).Some?
    ensures Times(VisitSyms(name, cat, p, c, syms).msgs, m)
         == if About(m).value.sym in syms && Told(m, name, cat, p, c, About(m).value.sym) then 1 else 0
    decreases syms
  {
    if syms != [] {
      var rest := syms[1..];
      SymsTimes(name, cat, p, c, rest, m);
      VisitTimes(name, cat, p, c, syms[0], m);
      TimesAppend(Visit(name, cat, p, c, syms[0]).msgs, VisitSyms(name, cat, p, c, rest).msgs, m);
      HeadApart(syms);
    }
  }

  lemma HeadApart<T>(xs: seq<T>)
    requires xs != [] && Distinct(xs)
    ensures Distinct(xs[1..]) && xs[0] !in xs[1..] && forall x :: x in xs <==> x == xs[0] || x in xs[1..]
  {
    assert xs == [xs[0]] + xs[1..];
    forall i | 0 <= i < |xs[1..]| ensures xs[1..][i] != xs[0] { assert xs[1..][i] == xs[i + 1]; }
  }

  lemma {:induction false} CatsTimes(name: string, p: Header, c: Header, cats: seq<Category>, m: Msg)
    requires Distinct(cats) && About(m).Some?
    ensures var k := About(m).value;
            Times(VisitCats(name, p, c, cats).msgs, m)
            == if k.cat in cats && Told(m, name, k.cat, TableOf(p, k.cat), TableOf(c, k.cat), k.sym) then 1 else 0
    decreases cats
  {
    if cats != [] {
      var cat := cats[0];
      var pt, ct := TableOf(p, cat), TableOf(c, cat);
      CatsTimes(name, p, c, cats[1..], m);
      SortedKeysLists(pt.Keys + ct.Keys);
      SymsTimes(name, cat, pt, ct, Symbols(pt, ct), m);
      TimesAppend(VisitSyms(name, cat, pt, ct, Symbols(pt, ct)).msgs, VisitCats(name, p, c, cats[1..]).msgs, m);
      HeadApart(cats);
    }
  }

  lemma EachOnce()
    ensures Distinct(CATEGORIES)
  {
  }

  // ------------------------------------------------------------ lines on a header

  /** Every symbol a header holds, if it holds any, has an entry in the allowlist. */
  ghost predicate Covered(name: string, h: Header, allow: Allowlist) {
    && (exists cat, sym :: sym in TableOf(h, cat))
    && (forall cat, sym :: sym in TableOf(h, cat) ==> Key(name, cat, sym) in allow)
  }

  lemma {:induction false} SymbolsOfOnly(name: string, h: Header, cats: seq<Category>, k: Key)
    requires k in SymbolsOf(name, h, cats)
    ensures k.header == name && k.sym in TableOf(h, k.cat)
    decreases cats
  {
    if cats != [] {
      var keys := KeysOf(name, cats[0], Symbols(TableOf(h, cats[0]), map[]));
      if k in keys {
        var i :| 0 <= i < |keys| && keys[i] == k;
      } else {
        SymbolsOfOnly(name, h, cats[1..], k);
      }
    }
  }

  lemma CoveredExact(name: string, h: Header, allow: Allowlist)
    ensures var gone := SymbolsOf(name, h, CATEGORIES);
            && (forall k :: k in gone <==> k.header == name && k.sym in TableOf(h, k.cat))
            && (gone != [] && AllAllowed(gone, allow) <==> Covered(name, h, allow))
  {
    var gone := SymbolsOf(name, h, CATEGORIES);
    forall k: Key ensures k in gone <==> k.header == name && k.sym in TableOf(h, k.cat) {
      if k in gone { SymbolsOfOnly(name, h, CATEGORIES, k); }
      if k.header == name && k.sym in TableOf(h, k.cat) {
        EveryCategory(k.cat);
        SymbolsOfAll(name, h, CATEGORIES, k.cat, k.sym);
      }
    }
    GoneKeys(name, h, gone);
  }

  lemma GoneKeys(name: string, h: Header, gone: seq<Key>)
    requires forall k :: k in gone <==> k.header == name && k.sym in TableOf(h, k.cat)
    ensures gone != [] <==> exists cat, sym :: sym in TableOf(h, cat)
    ensures forall cat, sym :: sym in TableOf(h, cat) <==> Key(name, cat, sym) in gone
  {
    forall cat, sym ensures sym in TableOf(h, cat) <==> Key(name, cat, sym) in gone { }
    if gone != [] { assert gone[0] in gone; }
  }

  lemma {:induction false} SymbolsOfDistinct(name: string, h: Header, cats: seq<Category>)
    requires Distinct(cats)
    ensures Distinct(SymbolsOf(name, h, cats)) && forall k :: k in SymbolsOf(name, h, cats) ==> k.cat in cats
    decreases cats
  {
    if cats != [] {
      var syms := Symbols(TableOf(h, cats[0]), map[]);
      var keys, rest := KeysOf(name, cats[0], syms), SymbolsOf(name, h, cats[1..]);
      var none: Table := map[];
      SortedKeysLists(TableOf(h, cats[0]).Keys + none.Keys);
      HeadApart(cats);
      SymbolsOfDistinct(name, h, cats[1..]);
      JoinDistinct(keys, rest);
    }
  }

  lemma JoinDistinct<T>(a: seq<T>, b: seq<T>)
    requires Distinct(a) && Distinct(b) && forall x :: x in a ==> x !in b
    ensures Distinct(a + b)
  {
    forall i, j | 0 <= i < j < |a + b| ensures (a + b)[i] != (a + b)[j] {
      if i < |a| <= j { assert a[i] in a && b[j - |a|] in b; }
    }
  }

  lemma {:induction false} AllowedTimes(keys: seq<Key>, allow: Allowlist, m: Msg)
    requires AllAllowed(keys, allow) && Distinct(keys)
    ensures Times(AllowedLines(keys, allow), m) == if m.Allowed? && m.key in keys && m.entry == allow[m.key] then 1 else 0
  {
    if keys != [] {
      HeadApart(keys);
      AllowedTimes(keys[1..], allow, m);
      assert AllowedLines(keys, allow)[1..] == AllowedLines(keys[1..], allow);
    }
  }

  /** The header a line of the traversal is about. */
  function HeaderOf(m: Msg): Option<string> {
    match m
    case RemovedHeader(h) => Some(h)
    case AddedHeader(h) => Some(h)
    case Changed(k) => Some(k.header)
    case MemberDetail(_, _, h, _, _, _) => Some(h)
    case Allowed(k, _) => Some(k.header)
    case _ => None
  }

  /** Exactly when the traversal writes a line about the header `name`: the header is
      gone and not covered, or gone and covered by its own symbols' entries, or new, or
      a symbol of it has changed. */
  ghost predicate Written(m: Msg, name: string, prev: Snapshot, curr: Snapshot, allow: Allowlist) {
    && HeaderOf(m) == Some(name)
    && match m
       case RemovedHeader(_) => name in prev && name !in curr && !Covered(name, prev[name], allow)
       case AddedHeader(_) => name in curr && name !in prev
       case Allowed(k, e) =>
         && name in prev && name !in curr && Covered(name, prev[name], allow)
         && k.sym in TableOf(prev[name], k.cat) && k in allow && e == allow[k]
       case Changed(k) =>
         name in prev && name in curr && Told(m, name, k.cat, TableOf(prev[name], k.cat), TableOf(curr[name], k.cat), k.sym)
       case MemberDetail(_, _, _, s, _, _) =>
         name in prev && name in curr && Told(m, name, Typedefs, TableOf(prev[name], Typedefs), TableOf(curr[name], Typedefs), s)
       case _ => false
  }

  lemma OneLine(x: Msg, m: Msg)
    ensures Times([x], m) == if x == m then 1 else 0
  {
    assert [x][1..] == [];
  }

  lemma {:induction false} NotAbout(name: string, p: Header, c: Header, cats: seq<Category>, m: Msg)
    requires About(m).None?
    ensures Times(VisitCats(name, p, c, cats).msgs, m) == 0
    decreases cats
  {
    if cats != [] {
      var pt, ct := TableOf(p, cats[0]), TableOf(c, cats[0]);
      NotAboutSyms(name, cats[0], pt, ct, Symbols(pt, ct), m);
      NotAbout(name, p, c, cats[1..], m);
      TimesAppend(VisitSyms(name, cats[0], pt, ct, Symbols(pt, ct)).msgs, VisitCats(name, p, c, cats[1..]).msgs, m);
    }
  }

  lemma {:induction false} NotAboutSyms(name: string, cat: Category, p: Table, c: Table, syms: seq<string>, m: Msg)
    requires (forall s :: s in syms ==> s in p || s in c) && About(m).None?
    ensures Times(VisitSyms(name, cat, p, c, syms).msgs, m) == 0
    decreases syms
  {
    if syms != [] {
      NotAboutVisit(name, cat, p, c, syms[0], m);
      NotAboutSyms(name, cat, p, c, syms[1..], m);
      TimesAppend(Visit(name, cat, p, c, syms[0]).msgs, VisitSyms(name, cat, p, c, syms[1..]).msgs, m);
    }
  }

  lemma NotAboutVisit(name: string, cat: Category, p: Table, c: Table, sym: string, m: Msg)
    requires (sym in p || sym in c) && About(m).None?
    ensures Times(Visit(name, cat, p, c, sym).msgs, m) == 0
  {
    if sym in p && sym in c && p[sym].hash != c[sym].hash {
      var head := [Changed(Key(name, cat, sym))];
      FieldTimes(name, sym, p[sym], c[sym], m);
      TimesAppend(head, if cat == Typedefs then FieldDiff(name, sym, p[sym], c[sym]) else [], m);
      OneLine(head[0], m);
    }
  }

  lemma HeaderTimes(name: string, prev: Snapshot, curr: Snapshot, allow: Allowlist, m: Msg)
    requires name in prev || name in curr
    ensures Times(VisitHeader(name, prev, curr, allow).msgs, m) == if Written(m, name, prev, curr, allow) then 1 else 0
  {
    if name !in curr {
      GoneTimes(name, prev, curr, allow, m);
    } else if name !in prev {
      OneLine(AddedHeader(name), m);
    } else if About(m).Some? {
      EachOnce();
      CatsTimes(name, prev[name], curr[name], CATEGORIES, m);
      EveryCategory(About(m).value.cat);
    } else {
      NotAbout(name, prev[name], curr[name], CATEGORIES, m);
    }
  }

  lemma GoneTimes(name: string, prev: Snapshot, curr: Snapshot, allow: Allowlist, m: Msg)
    requires name in prev && name !in curr
    ensures Times(VisitHeader(name, prev, curr, allow).msgs, m) == if Written(m, name, prev, curr, allow) then 1 else 0
  {
    var gone := SymbolsOf(name, prev[name], CATEGORIES);
    CoveredExact(name, prev[name], allow);
    WrittenGone(m, name, prev, curr, allow);
    if gone != [] && AllAllowed(gone, allow) {
      EachOnce();
      SymbolsOfDistinct(name, prev[name], CATEGORIES);
      AllowedTimes(gone, allow, m);
    } else {
      OneLine(RemovedHeader(name), m);
    }
  }

  lemma WrittenGone(m: Msg, name: string, prev: Snapshot, curr: Snapshot, allow: Allowlist)
    requires name in prev && name !in curr
    ensures Covered(name, prev[name], allow) ==>
              (Written(m, name, prev, curr, allow) <==>
               m.Allowed? && m.key.header == name && m.key.sym in TableOf(prev[name], m.key.cat) && m.key in allow && m.entry == allow[m.key])
    ensures !Covered(name, prev[name], allow) ==> (Written(m, name, prev, curr, allow) <==> m == RemovedHeader(name))
  {
  }

  lemma {:induction false} CollectTimes(names: seq<string>, prev: Snapshot, curr: Snapshot, allow: Allowlist, m: Msg)
    requires (forall n :: n in names ==> n in prev || n in curr) && Distinct(names)
    ensures Times(Collect(names, prev, curr, allow).msgs, m)
         == if HeaderOf(m).Some? && HeaderOf(m).value in names && Written(m, HeaderOf(m).value, prev, curr, allow) then 1 else 0
    decreases names
  {
    if names != [] {
      HeadApart(names);
      HeaderTimes(names[0], prev, curr, allow, m);
      CollectTimes(names[1..], prev, curr, allow, m);
      TimesAppend(VisitHeader(names[0], prev, curr, allow).msgs, Collect(names[1..], prev, curr, allow).msgs, m);
    }
  }

  // ----------------------------------------------------------- lines of the matcher

  /** The decisions of a diff, and the gains they leave over. */
  function Decided(prev: Snapshot, curr: Snapshot, g: Graph, allow: Allowlist): (seq<Decision>, seq<Entry>) {
    var t := Collect(HeaderNames(prev, curr), prev, curr, allow);
    Decide(t.removed, t.added, t.removed, t.added, g)
  }

  lemma {:induction false} ReportHolds(ds: seq<Decision>, allow: Allowlist, m: Msg)
    ensures m in Report(ds, allow) <==> exists d :: d in ds && m in DecisionLines(d, allow)
  {
    if ds != [] {
      ReportHolds(ds[1..], allow, m);
      assert ds == [ds[0]] + ds[1..];
      assert m in Report(ds, allow) <==> m in DecisionLines(ds[0], allow) || m in Report(ds[1..], allow);
    }
  }

  lemma {:induction false} AddedHolds(es: seq<Entry>, m: Msg)
    ensures m in AddedLines(es) <==> m.Added? && exists e :: e in es && e.key == m.key
  {
    if es != [] {
      AddedHolds(es[1..], m);
      assert es == [es[0]] + es[1..];
      assert AddedLines(es) == [Added(es[0].key)] + AddedLines(es[1..]);
    }
  }

  ghost predicate Reported(ds: seq<Decision>, allow: Allowlist, m: Msg) { exists d :: d in ds && m in DecisionLines(d, allow) }

  ghost predicate LeftOver(es: seq<Entry>, k: Key) { exists e :: e in es && e.key == k }

  ghost predicate Lost(ds: seq<Decision>, k: Key) { exists d :: d in ds && d.Loss? && d.lost.key == k }

  /** What the diff writes, line by line. */
  lemma DiffHolds(prev: Snapshot, curr: Snapshot, g: Graph, allow: Allowlist, m: Msg)
    ensures m in Diff(prev, curr, g, allow) <==>
            || (HeaderOf(m).Some? && Written(m, HeaderOf(m).value, prev, curr, allow))
            || Reported(Decided(prev, curr, g, allow).0, allow, m)
            || (m.Added? && LeftOver(Decided(prev, curr, g, allow).1, m.key))
  {
    var names := HeaderNames(prev, curr);
    var t := Collect(names, prev, curr, allow);
    var d := Decided(prev, curr, g, allow);
    SortedKeysLists(prev.Keys + curr.Keys);
    CollectTimes(names, prev, curr, allow, m);
    TimesIn(t.msgs, m);
    ReportHolds(d.0, allow, m);
    AddedHolds(d.1, m);
    assert Diff(prev, curr, g, allow) == t.msgs + (Report(d.0, allow) + AddedLines(d.1));
  }

  /** A line of the traversal that the matcher does not write is written once. */
  lemma WrittenOnce(prev: Snapshot, curr: Snapshot, g: Graph, allow: Allowlist, m: Msg)
    requires !m.Added? && forall d :: d in Decided(prev, curr, g, allow).0 ==> m !in DecisionLines(d, allow)
    ensures Times(Diff(prev, curr, g, allow), m) == if HeaderOf(m).Some? && Written(m, HeaderOf(m).value, prev, curr, allow) then 1 else 0
  {
    var names := HeaderNames(prev, curr);
    var t := Collect(names, prev, curr, allow);
    var d := Decided(prev, curr, g, allow);
    SortedKeysLists(prev.Keys + curr.Keys);
    CollectTimes(names, prev, curr, allow, m);
    ReportHolds(d.0, allow, m);
    AddedHolds(d.1, m);
    TimesIn(Report(d.0, allow), m);
    TimesIn(AddedLines(d.1), m);
    TimesAppend(Report(d.0, allow), AddedLines(d.1), m);
    TimesAppend(t.msgs, Report(d.0, allow) + AddedLines(d.1), m);
  }

  /** The lines of one decision. */
  lemma DecisionHolds(d: Decision, allow: Allowlist, m: Msg)
    ensures m in DecisionLines(d, allow) <==>
            match d
            case Loss(r) => m == if r.key in allow then Allowed(r.key, allow[r.key]) else Removed(r.key)
            case Move(r, a, changed) =>
              || m == Moved(r.key, a.key.header)
              || (changed && (m == ChangedMove(a.key, r.key.header) || m in MovedDetail(a.key.header, r.key.sym, r.key.cat, r.record, a.record)))
  {
  }

  lemma DetailKinds(header: string, sym: string, cat: Category, p: Record, c: Record, m: Msg)
    requires m in MovedDetail(header, sym, cat, p, c)
    ensures m.MemberDetail? || m.TextDetail? || m.HashChanged?
    ensures m.MemberDetail? ==> m.header == header && m.sym == sym && cat == Typedefs
  {
    FieldTimes(header, sym, p, c, m);
    TimesIn(FieldDiff(header, sym, p, c), m);
  }

  /** A changed symbol of a header both snapshots have is reported, once, and nothing else
      is: in every category, exactly when the hashes differ. */
  lemma ChangedExact(prev: Snapshot, curr: Snapshot, g: Graph, allow: Allowlist, h: string, cat: Category, s: string)
    ensures Times(Diff(prev, curr, g, allow), Changed(Key(h, cat, s)))
         == if h in prev && h in curr && s in TableOf(prev[h], cat) && s in TableOf(curr[h], cat)
               && TableOf(prev[h], cat)[s].hash != TableOf(curr[h], cat)[s].hash
            then 1 else 0
    ensures Changed(Key(h, cat, s)) in Diff(prev, curr, g, allow) <==>
            && h in prev && h in curr && s in TableOf(prev[h], cat) && s in TableOf(curr[h], cat)
            && TableOf(prev[h], cat)[s].hash != TableOf(curr[h], cat)[s].hash
  {
    var m := Changed(Key(h, cat, s));
    ChangedTimes(prev, curr, g, allow, Key(h, cat, s));
    TimesIn(Diff(prev, curr, g, allow), m);
  }

  /** The symbol is in both tables of a header both snapshots have, with two hashes. */
  ghost predicate Differs(prev: Snapshot, curr: Snapshot, k: Key) {
    && k.header in prev && k.header in curr && k.sym in TableOf(prev[k.header], k.cat) && k.sym in TableOf(curr[k.header], k.cat)
    && TableOf(prev[k.header], k.cat)[k.sym].hash != TableOf(curr[k.header], k.cat)[k.sym].hash
  }

  lemma ChangedTimes(prev: Snapshot, curr: Snapshot, g: Graph, allow: Allowlist, k: Key)
    ensures Times(Diff(prev, curr, g, allow), Changed(k)) == if Differs(prev, curr, k) then 1 else 0
  {
    forall d | d in Decided(prev, curr, g, allow).0 ensures Changed(k) !in DecisionLines(d, allow) { NeverChanged(d, allow, k); }
    WrittenOnce(prev, curr, g, allow, Changed(k));
  }

  lemma NeverChanged(d: Decision, allow: Allowlist, k: Key)
    ensures Changed(k) !in DecisionLines(d, allow)
  {
    DecisionHolds(d, allow, Changed(k));
    if d.Move? && Changed(k) in MovedDetail(d.gained.key.header, d.lost.key.sym, d.lost.key.cat, d.lost.record, d.gained.record) {
      DetailKinds(d.gained.key.header, d.lost.key.sym, d.lost.key.cat, d.lost.record, d.gained.record, Changed(k));
    }
  }

  /** Its member lines, for a typedef, stand for exactly the indices at which the old and
      the new fields or enumerators differ, each once and with both texts. */
  lemma MembersExact(prev: Snapshot, curr: Snapshot, g: Graph, allow: Allowlist, part: Part, i: nat, h: string, s: string, was: Option<string>, now: Option<string>)
    requires h in prev && h in curr && s in TableOf(prev[h], Typedefs) && s in TableOf(curr[h], Typedefs)
    ensures var p, c := TableOf(prev[h], Typedefs)[s], TableOf(curr[h], Typedefs)[s];
            Times(Diff(prev, curr, g, allow), MemberDetail(part, i, h, s, was, now))
            == if p.hash != c.hash && At(Members(part, p), i) != At(Members(part, c), i)
                  && was == At(Members(part, p), i) && now == At(Members(part, c), i)
               then 1 else 0
  {
    var m := MemberDetail(part, i, h, s, was, now);
    forall d | d in Decided(prev, curr, g, allow).0 ensures m !in DecisionLines(d, allow) {
      DecisionHolds(d, allow, m);
      if m in DecisionLines(d, allow) {
        DetailKinds(d.gained.key.header, d.lost.key.sym, d.lost.key.cat, d.lost.record, d.gained.record, m);
        MoveIsGone(prev, curr, g, allow, d);
        assert false;
      }
    }
    WrittenOnce(prev, curr, g, allow, m);
  }

  /** A move takes a symbol that its new header did not have before. */
  lemma MoveIsGone(prev: Snapshot, curr: Snapshot, g: Graph, allow: Allowlist, d: Decision)
    requires d in Decided(prev, curr, g, allow).0 && d.Move?
    ensures Gone(d.gained, curr, prev) && d.gained.key.cat == d.lost.key.cat && d.gained.key.sym == d.lost.key.sym
  {
    var t := Collect(HeaderNames(prev, curr), prev, curr, allow);
    CollectExact(prev, curr, allow);
    DecideFacts(t.removed, t.added, t.removed, t.added, g);
    assert Justified(d, t.removed, t.added, g);
    assert d.gained in t.added;
  }

  /** A header's own lines: gone without cover, or new. */
  lemma HeadersExact(prev: Snapshot, curr: Snapshot, g: Graph, allow: Allowlist, h: string)
    ensures Times(Diff(prev, curr, g, allow), AddedHeader(h)) == if h in curr && h !in prev then 1 else 0
    ensures Times(Diff(prev, curr, g, allow), RemovedHeader(h)) == if h in prev && h !in curr && !Covered(h, prev[h], allow) then 1 else 0
  {
    forall m | m == AddedHeader(h) || m == RemovedHeader(h)
      ensures Times(Diff(prev, curr, g, allow), m) == if Written(m, h, prev, curr, allow) then 1 else 0
    {
      forall d | d in Decided(prev, curr, g, allow).0 ensures m !in DecisionLines(d, allow) {
        DecisionHolds(d, allow, m);
        if m in DecisionLines(d, allow) {
          DetailKinds(d.gained.key.header, d.lost.key.sym, d.lost.key.cat, d.lost.record, d.gained.record, m);
        }
      }
      WrittenOnce(prev, curr, g, allow, m);
    }
  }

  /** A loss is reported removed without an entry of its own in the allowlist and allowed
      with one; a covered header's symbols are allowed as well. */
  lemma LossesExact(prev: Snapshot, curr: Snapshot, g: Graph, allow: Allowlist, k: Key, e: Removal)
    ensures Removed(k) in Diff(prev, curr, g, allow) <==> k !in allow && Lost(Decided(prev, curr, g, allow).0, k)
    ensures Allowed(k, e) in Diff(prev, curr, g, allow) <==>
            && k in allow && e == allow[k]
            && (Lost(Decided(prev, curr, g, allow).0, k)
                || (k.header in prev && k.header !in curr && Covered(k.header, prev[k.header], allow) && k.sym in TableOf(prev[k.header], k.cat)))
  {
    var ds := Decided(prev, curr, g, allow).0;
    var m, n := Removed(k), Allowed(k, e);
    LostReported(ds, allow, k, e);
    assert HeaderOf(m).None? && HeaderOf(n) == Some(k.header);
    DiffHolds(prev, curr, g, allow, m);
    DiffHolds(prev, curr, g, allow, n);
  }

  lemma LostReported(ds: seq<Decision>, allow: Allowlist, k: Key, e: Removal)
    ensures Reported(ds, allow, Removed(k)) <==> k !in allow && Lost(ds, k)
    ensures Reported(ds, allow, Allowed(k, e)) <==> k in allow && e == allow[k] && Lost(ds, k)
  {
    forall d | d in ds
      ensures Removed(k) in DecisionLines(d, allow) <==> d.Loss? && d.lost.key == k && k !in allow
      ensures Allowed(k, e) in DecisionLines(d, allow) <==> d.Loss? && d.lost.key == k && k in allow && e == allow[k]
    {
      LossLines(d, allow, k, e);
    }
  }

  lemma LossLines(d: Decision, allow: Allowlist, k: Key, e: Removal)
    ensures Removed(k) in DecisionLines(d, allow) <==> d.Loss? && d.lost.key == k && k !in allow
    ensures Allowed(k, e) in DecisionLines(d, allow) <==> d.Loss? && d.lost.key == k && k in allow && e == allow[k]
  {
    DecisionHolds(d, allow, Removed(k));
    DecisionHolds(d, allow, Allowed(k, e));
    if d.Move? {
      forall m | m == Removed(k) || m == Allowed(k, e)
        ensures m !in MovedDetail(d.gained.key.header, d.lost.key.sym, d.lost.key.cat, d.lost.record, d.gained.record)
      {
        if m in MovedDetail(d.gained.key.header, d.lost.key.sym, d.lost.key.cat, d.lost.record, d.gained.record) {
          DetailKinds(d.gained.key.header, d.lost.key.sym, d.lost.key.cat, d.lost.record, d.gained.record, m);
        }
      }
    }
  }

  /** A move is reported moved, and changed as well when it is; a gain no move took is
      reported added. */
  lemma MovesExact(prev: Snapshot, curr: Snapshot, g: Graph, allow: Allowlist, k: Key, h: string)
    ensures Moved(k, h) in Diff(prev, curr, g, allow) <==>
            exists d :: d in Decided(prev, curr, g, allow).0 && d.Move? && d.lost.key == k && d.gained.key.header == h
    ensures ChangedMove(k, h) in Diff(prev, curr, g, allow) <==>
            exists d :: d in Decided(prev, curr, g, allow).0 && d.Move? && d.changed && d.gained.key == k && d.lost.key.header == h
    ensures Added(k) in Diff(prev, curr, g, allow) <==> LeftOver(Decided(prev, curr, g, allow).1, k)
  {
    MovedHolds(prev, curr, g, allow, k, h);
    ChangedMoveHolds(prev, curr, g, allow, k, h);
    AddedExact(prev, curr, g, allow, k);
  }

  lemma MovedHolds(prev: Snapshot, curr: Snapshot, g: Graph, allow: Allowlist, k: Key, h: string)
    ensures Moved(k, h) in Diff(prev, curr, g, allow) <==>
            exists d :: d in Decided(prev, curr, g, allow).0 && d.Move? && d.lost.key == k && d.gained.key.header == h
  {
    DiffHolds(prev, curr, g, allow, Moved(k, h));
    forall d | d in Decided(prev, curr, g, allow).0
      ensures Moved(k, h) in DecisionLines(d, allow) <==> d.Move? && d.lost.key == k && d.gained.key.header == h
    {
      MoveLines(d, allow, k, h);
    }
  }

  lemma ChangedMoveHolds(prev: Snapshot, curr: Snapshot, g: Graph, allow: Allowlist, k: Key, h: string)
    ensures ChangedMove(k, h) in Diff(prev, curr, g, allow) <==>
            exists d :: d in Decided(prev, curr, g, allow).0 && d.Move? && d.changed && d.gained.key == k && d.lost.key.header == h
  {
    DiffHolds(prev, curr, g, allow, ChangedMove(k, h));
    forall d | d in Decided(prev, curr, g, allow).0
      ensures ChangedMove(k, h) in DecisionLines(d, allow) <==> d.Move? && d.changed && d.gained.key == k && d.lost.key.header == h
    {
      MoveLines(d, allow, k, h);
    }
  }

  lemma AddedExact(prev: Snapshot, curr: Snapshot, g: Graph, allow: Allowlist, k: Key)
    ensures Added(k) in Diff(prev, curr, g, allow) <==> LeftOver(Decided(prev, curr, g, allow).1, k)
  {
    var m := Added(k);
    NeverAdded(Decided(prev, curr, g, allow).0, allow, k);
    assert HeaderOf(m).None? && m.key == k;
    DiffHolds(prev, curr, g, allow, m);
  }

  lemma NeverAdded(ds: seq<Decision>, allow: Allowlist, k: Key)
    ensures !Reported(ds, allow, Added(k))
  {
    forall d | d in ds ensures Added(k) !in DecisionLines(d, allow) { MoveLines(d, allow, k, ""); }
  }

  lemma MoveLines(d: Decision, allow: Allowlist, k: Key, h: string)
    ensures Moved(k, h) in DecisionLines(d, allow) <==> d.Move? && d.lost.key == k && d.gained.key.header == h
    ensures ChangedMove(k, h) in DecisionLines(d, allow) <==> d.Move? && d.changed && d.gained.key == k && d.lost.key.header == h
    ensures Added(k) !in DecisionLines(d, allow)
  {
    forall m | m == Moved(k, h) || m == ChangedMove(k, h) || m == Added(k)
      ensures m in DecisionLines(d, allow) <==>
              d.Move? && (m == Moved(d.lost.key, d.gained.key.header) || (d.changed && m == ChangedMove(d.gained.key, d.lost.key.header)))
    {
      DecisionHolds(d, allow, m);
      if d.Move? && m in MovedDetail(d.gained.key.header, d.lost.key.sym, d.lost.key.cat, d.lost.record, d.gained.record) {
        DetailKinds(d.gained.key.header, d.lost.key.sym, d.lost.key.cat, d.lost.record, d.gained.record, m);
      }
    }
  }

  /** What is written about the content of a changed move: the members that differ, of a
      typedef; without any, the two texts if they differ; else only that the hash does. */
  lemma MovedDetailExact(header: string, sym: string, cat: Category, p: Record, c: Record, m: Msg)
    ensures var members := cat == Typedefs && (Members(Field, p) != Members(Field, c) || Members(Enumerator, p) != Members(Enumerator, c));
            m in MovedDetail(header, sym, cat, p, c) <==>
            match m
            case MemberDetail(_, _, h, s, _, _) => cat == Typedefs && h == header && s == sym && Says(m, p, c)
            case TextDetail(h, s, was, now) => !members && p.text != c.text && h == header && s == sym && was == p.text && now == c.text
            case HashChanged => !members && p.text == c.text
            case _ => false
  {
    var lines := FieldDiff(header, sym, p, c);
    FieldTimes(header, sym, p, c, m);
    TimesIn(lines, m);
    FieldEmpty(header, sym, p, c);
  }

  lemma FieldEmpty(header: string, sym: string, p: Record, c: Record)
    ensures FieldDiff(header, sym, p, c) == [] <==> Members(Field, p) == Members(Field, c) && Members(Enumerator, p) == Members(Enumerator, c)
  {
    MemberEmpty(Field, header, sym, p.fields, c.fields);
    MemberEmpty(Enumerator, header, sym, p.enumerators, c.enumerators);
  }

  lemma MemberEmpty(part: Part, header: string, sym: string, p: Option<seq<string>>, c: Option<seq<string>>)
    ensures MemberDiff(part, header, sym, p, c) == [] <==> OrEmpty(p) == OrEmpty(c)
  {
    if OrEmpty(p) != OrEmpty(c) {
      var i := DiffersAt(OrEmpty(p), OrEmpty(c));
      MemberTimes(part, header, sym, p, c, MemberDetail(part, i, header, sym, At(OrEmpty(p), i), At(OrEmpty(c), i)));
    }
  }

  lemma DiffersAt(a: seq<string>, b: seq<string>) returns (i: nat)
    requires a != b
    ensures At(a, i) != At(b, i)
  {
    if |a| < |b| {
      i := |a|;
    } else if |b| < |a| {
      i := |b|;
    } else {
      i :| 0 <= i < |a| && a[i] != b[i];
    }
  }
}
