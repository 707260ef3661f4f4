/** The order in which the snapshot diff reports: by header, then category, then symbol,
    and the lines on one symbol by member. */
module AbiOrder {
  import opened PyText
  import opened AbiDiff

  /** Where a line or an entry stands in the report. */
  datatype Place = Place(header: string, cat: nat, sym: string, part: nat, index: nat)

  ghost predicate LexLess(a: string, b: string) { LexLE(a, b) && a != b }

  ghost predicate Earlier(a: Place, b: Place) {
    || LexLess(a.header, b.header)
    || (a.header == b.header && (a.cat < b.cat || (a.cat == b.cat && Within(a, b))))
  }

  ghost predicate Within(a: Place, b: Place) {
    LexLess(a.sym, b.sym) || (a.sym == b.sym && (a.part < b.part || (a.part == b.part && a.index < b.index)))
  }

  /** Functions, typedefs, macros, variables. */
  ghost function Rank(cat: Category): nat {
    match cat case Functions => 0 case Typedefs => 1 case Macros => 2 case Variables => 3
  }

  ghost function KeyPlace(k: Key): Place { Place(k.header, Rank(k.cat), k.sym, 0, 0) }

  /** A CHANGED line, then the symbol's fields, then its enumerators, each by index. */
  ghost function LinePlace(m: Msg): Place {
    match m
    case Changed(k) => KeyPlace(k)
    case Allowed(k, _) => KeyPlace(k)
    case MemberDetail(part, i, h, s, _, _) => Place(h, Rank(Typedefs), s, if part == Field then 1 else 2, i)
    case RemovedHeader(h) => Place(h, 0, "", 0, 0)
    case AddedHeader(h) => Place(h, 0, "", 0, 0)
    case _ => Place("", 0, "", 0, 0)
  }

  datatype Kind = Lines | Lost | Gained

  /** The places of what a traversal collects of one kind. */
  ghost function Places(t: Tally, w: Kind): (ps: seq<Place>)
    ensures w == Lines ==> |ps| == |t.msgs| && forall i :: 0 <= i < |ps| ==> ps[i] == LinePlace(t.msgs[i])
    ensures w == Lost ==> |ps| == |t.removed| && forall i :: 0 <= i < |ps| ==> ps[i] == KeyPlace(t.removed[i].key)
    ensures w == Gained ==> |ps| == |t.added| && forall i :: 0 <= i < |ps| ==> ps[i] == KeyPlace(t.added[i].key)
  {
    match w
    case Lines => seq(|t.msgs|, i requires 0 <= i < |t.msgs| => LinePlace(t.msgs[i]))
    case Lost => seq(|t.removed|, i requires 0 <= i < |t.removed| => KeyPlace(t.removed[i].key))
    case Gained => seq(|t.added|, i requires 0 <= i < |t.added| => KeyPlace(t.added[i].key))
  }

  ghost predicate Ordered(ps: seq<Place>) { forall i, j :: 0 <= i < j < |ps| ==> Earlier(ps[i], ps[j]) }

  ghost predicate AllEarlier(a: seq<Place>, b: seq<Place>) { forall x, y :: x in a && y in b ==> Earlier(x, y) }

  lemma JoinOrdered(a: seq<Place>, b: seq<Place>)
    requires Ordered(a) && Ordered(b) && AllEarlier(a, b)
    ensures Ordered(a + b)
  {
    forall i, j | 0 <= i < j < |a + b| ensures Earlier((a + b)[i], (a + b)[j]) {
      if i < |a| <= j { assert a[i] in a && b[j - |a|] in b; }
    }
  }

  lemma PlusPlaces(s: Tally, t: Tally, w: Kind)
    ensures Places(Plus(s, t), w) == Places(s, w) + Places(t, w)
  {
  }

  lemma LexApart(a: string, b: string, c: string)
    ensures LexLess(a, b) && LexLess(b, c) ==> LexLess(a, c)
  {
    if LexLess(a, b) && LexLess(b, c) {
      LexTransitive(a, b, c);
      if a == c { LexAntisymmetric(a, b); }
    }
  }

  // ------------------------------------------------------------------- one symbol

  /** Every place is one of this symbol's. */
  ghost predicate On(ps: seq<Place>, header: string, cat: nat, sym: string) {
    forall x :: x in ps ==> x.header == header && x.cat == cat && x.sym == sym
  }

  ghost function MsgPlaces(ms: seq<Msg>): (ps: seq<Place>)
    ensures |ps| == |ms| && forall i :: 0 <= i < |ps| ==> ps[i] == LinePlace(ms[i])
  {
    seq(|ms|, i requires 0 <= i < |ms| => LinePlace(ms[i]))
  }

  lemma MsgPlus(a: seq<Msg>, b: seq<Msg>)
    ensures MsgPlaces(a + b) == MsgPlaces(a) + MsgPlaces(b)
  {
  }

  ghost predicate FromIndex(ps: seq<Place>, part: nat, i: nat) { forall x :: x in ps ==> x.part == part && x.index >= i }

  lemma {:induction false} DetailsOrdered(part: Part, header: string, sym: string, p: seq<string>, c: seq<string>, i: nat)
    ensures var ps := MsgPlaces(DetailsFrom(part, header, sym, p, c, i));
            Ordered(ps) && On(ps, header, 1, sym) && FromIndex(ps, if part == Field then 1 else 2, i)
    decreases Longest(p, c) - i
  {
    if i < Longest(p, c) {
      DetailsOrdered(part, header, sym, p, c, i + 1);
      var head := if At(p, i) != At(c, i) then [MemberDetail(part, i, header, sym, At(p, i), At(c, i))] else [];
      var rest := DetailsFrom(part, header, sym, p, c, i + 1);
      MsgPlus(head, rest);
      HeadPlaces(part, header, sym, p, c, i, head);
      IndexFirst(MsgPlaces(head), MsgPlaces(rest), header, sym, if part == Field then 1 else 2, i);
    }
  }

  lemma HeadPlaces(part: Part, header: string, sym: string, p: seq<string>, c: seq<string>, i: nat, head: seq<Msg>)
    requires head == if At(p, i) != At(c, i) then [MemberDetail(part, i, header, sym, At(p, i), At(c, i))] else []
    ensures MsgPlaces(head) == [] || MsgPlaces(head) == [Place(header, 1, sym, if part == Field then 1 else 2, i)]
  {
  }

  lemma IndexFirst(a: seq<Place>, b: seq<Place>, header: string, sym: string, part: nat, i: nat)
    requires a == [] || a == [Place(header, 1, sym, part, i)]
    requires Ordered(b) && On(b, header, 1, sym) && FromIndex(b, part, i + 1)
    ensures Ordered(a + b) && On(a + b, header, 1, sym) && FromIndex(a + b, part, i)
  {
    JoinOrdered(a, b);
  }

  lemma MembersOrdered(part: Part, header: string, sym: string, p: Option<seq<string>>, c: Option<seq<string>>)
    ensures var ps := MsgPlaces(MemberDiff(part, header, sym, p, c));
            Ordered(ps) && On(ps, header, 1, sym) && FromIndex(ps, if part == Field then 1 else 2, 0)
  {
    DetailsOrdered(part, header, sym, OrEmpty(p), OrEmpty(c), 0);
  }

  ghost predicate Later(ps: seq<Place>) { forall x :: x in ps ==> x.part >= 1 }

  lemma FieldsOrdered(header: string, sym: string, p: Record, c: Record)
    ensures var ps := MsgPlaces(FieldDiff(header, sym, p, c)); Ordered(ps) && On(ps, header, 1, sym) && Later(ps)
  {
    var f, e := MemberDiff(Field, header, sym, p.fields, c.fields), MemberDiff(Enumerator, header, sym, p.enumerators, c.enumerators);
    MembersOrdered(Field, header, sym, p.fields, c.fields);
    MembersOrdered(Enumerator, header, sym, p.enumerators, c.enumerators);
    MsgPlus(f, e);
    JoinOrdered(MsgPlaces(f), MsgPlaces(e));
  }

  lemma VisitOrdered(name: string, cat: Category, p: Table, c: Table, sym: string, w: Kind)
    requires sym in p || sym in c
    ensures var ps := Places(Visit(name, cat, p, c, sym), w); Ordered(ps) && On(ps, name, Rank(cat), sym)
  {
    if w == Lines && sym in p && sym in c && p[sym].hash != c[sym].hash {
      var head := [Changed(Key(name, cat, sym))];
      var rest := if cat == Typedefs then FieldDiff(name, sym, p[sym], c[sym]) else [];
      FieldsOrdered(name, sym, p[sym], c[sym]);
      MsgPlus(head, rest);
      JoinOrdered(MsgPlaces(head), MsgPlaces(rest));
      assert Places(Visit(name, cat, p, c, sym), w) == MsgPlaces(head + rest);
    }
  }

  // -------------------------------------------------------------- a table, a header

  ghost predicate Increasing(syms: seq<string>) { forall i, j :: 0 <= i < j < |syms| ==> LexLess(syms[i], syms[j]) }

  ghost predicate OnOf(ps: seq<Place>, header: string, cat: nat, syms: seq<string>) {
    forall x :: x in ps ==> x.header == header && x.cat == cat && x.sym in syms
  }

  lemma {:induction false} SymsOrdered(name: string, cat: Category, p: Table, c: Table, syms: seq<string>, w: Kind)
    requires (forall s :: s in syms ==> s in p || s in c) && Increasing(syms)
    ensures var ps := Places(VisitSyms(name, cat, p, c, syms), w); Ordered(ps) && OnOf(ps, name, Rank(cat), syms)
    decreases syms
  {
    if syms != [] {
      var s, rest := syms[0], syms[1..];
      VisitOrdered(name, cat, p, c, s, w);
      SymsOrdered(name, cat, p, c, rest, w);
      PlusPlaces(Visit(name, cat, p, c, s), VisitSyms(name, cat, p, c, rest), w);
      FirstIsLess(syms);
      JoinOrdered(Places(Visit(name, cat, p, c, s), w), Places(VisitSyms(name, cat, p, c, rest), w));
      assert syms == [s] + rest;
    }
  }

  lemma FirstIsLess(syms: seq<string>)
    requires syms != [] && Increasing(syms)
    ensures Increasing(syms[1..]) && forall s :: s in syms[1..] ==> LexLess(syms[0], s)
  {
    var rest := syms[1..];
    forall i, j | 0 <= i < j < |rest| ensures LexLess(rest[i], rest[j]) { assert rest[i] == syms[i + 1] && rest[j] == syms[j + 1]; }
    forall s | s in rest ensures LexLess(syms[0], s) {
      var i :| 0 <= i < |rest| && rest[i] == s;
      assert syms[i + 1] == s;
    }
  }

  lemma SortedIncreasing(s: set<string>)
    ensures Increasing(SortedKeys(s))
  {
    SortedKeysSorted(s);
    SortedKeysLists(s);
  }

  ghost predicate RanksFrom(cats: seq<Category>) { forall i, j :: 0 <= i < j < |cats| ==> Rank(cats[i]) < Rank(cats[j]) }

  ghost predicate OnCats(ps: seq<Place>, header: string, cats: seq<Category>) {
    forall x :: x in ps ==> x.header == header && exists cat :: cat in cats && x.cat == Rank(cat)
  }

  lemma {:induction false} CatsOrdered(name: string, p: Header, c: Header, cats: seq<Category>, w: Kind)
    requires RanksFrom(cats)
    ensures var ps := Places(VisitCats(name, p, c, cats), w); Ordered(ps) && OnCats(ps, name, cats)
    decreases cats
  {
    if cats != [] {
      var cat, rest := cats[0], cats[1..];
      var pt, ct := TableOf(p, cat), TableOf(c, cat);
      var first, others := VisitSyms(name, cat, pt, ct, Symbols(pt, ct)), VisitCats(name, p, c, rest);
      SortedIncreasing(pt.Keys + ct.Keys);
      SymsOrdered(name, cat, pt, ct, Symbols(pt, ct), w);
      assert forall i :: 0 <= i < |rest| ==> rest[i] == cats[i + 1];
      CatsOrdered(name, p, c, rest, w);
      PlusPlaces(first, others, w);
      CatsApart(Places(first, w), Places(others, w), name, cats, Symbols(pt, ct));
      JoinOrdered(Places(first, w), Places(others, w));
    }
  }

  lemma CatsApart(a: seq<Place>, b: seq<Place>, name: string, cats: seq<Category>, syms: seq<string>)
    requires cats != [] && RanksFrom(cats) && OnOf(a, name, Rank(cats[0]), syms) && OnCats(b, name, cats[1..])
    ensures AllEarlier(a, b) && OnCats(a + b, name, cats)
  {
    forall x, y | x in a && y in b ensures Earlier(x, y) {
      var cat :| cat in cats[1..] && y.cat == Rank(cat);
      var i :| 0 <= i < |cats[1..]| && cats[1..][i] == cat;
      assert cats[i + 1] == cat;
    }
    assert cats[0] in cats && forall cat :: cat in cats[1..] ==> cat in cats;
  }

  // ------------------------------------------------------------------ all headers

  ghost predicate OnHeader(ps: seq<Place>, header: string) { forall x :: x in ps ==> x.header == header }

  lemma {:induction false} KeysOrdered(name: string, cat: Category, syms: seq<string>, allow: Allowlist)
    requires Increasing(syms) && AllAllowed(KeysOf(name, cat, syms), allow)
    ensures var ps := MsgPlaces(AllowedLines(KeysOf(name, cat, syms), allow)); Ordered(ps) && OnOf(ps, name, Rank(cat), syms)
    decreases syms
  {
    if syms != [] {
      var key, rest := Key(name, cat, syms[0]), KeysOf(name, cat, syms[1..]);
      FirstIsLess(syms);
      assert KeysOf(name, cat, syms) == [key] + rest;
      AllowedPlus([key], rest, allow);
      assert [key][1..] == [];
      KeysOrdered(name, cat, syms[1..], allow);
      MsgPlus(AllowedLines([key], allow), AllowedLines(rest, allow));
      KeyFirst(name, cat, syms, MsgPlaces(AllowedLines([key], allow)), MsgPlaces(AllowedLines(rest, allow)));
    }
  }

  lemma KeyFirst(name: string, cat: Category, syms: seq<string>, a: seq<Place>, b: seq<Place>)
    requires syms != [] && Increasing(syms) && a == [Place(name, Rank(cat), syms[0], 0, 0)]
    requires Ordered(b) && OnOf(b, name, Rank(cat), syms[1..])
    ensures Ordered(a + b) && OnOf(a + b, name, Rank(cat), syms)
  {
    FirstIsLess(syms);
    JoinOrdered(a, b);
    assert syms == [syms[0]] + syms[1..];
  }

  lemma {:induction false} AllowedPlus(a: seq<Key>, b: seq<Key>, allow: Allowlist)
    requires AllAllowed(a + b, allow)
    ensures AllAllowed(a, allow) && AllAllowed(b, allow)
    ensures AllowedLines(a + b, allow) == AllowedLines(a, allow) + AllowedLines(b, allow)
  {
    assert forall k :: k in a || k in b ==> k in a + b;
    if a == [] {
      assert a + b == b;
    } else {
      assert (a + b)[0] == a[0] && (a + b)[1..] == a[1..] + b;
      AllowedPlus(a[1..], b, allow);
    }
  }

  lemma {:induction false} GoneOrdered(name: string, h: Header, cats: seq<Category>, allow: Allowlist)
    requires RanksFrom(cats) && AllAllowed(SymbolsOf(name, h, cats), allow)
    ensures var ps := MsgPlaces(AllowedLines(SymbolsOf(name, h, cats), allow)); Ordered(ps) && OnCats(ps, name, cats)
    decreases cats
  {
    if cats != [] {
      var cat, rest := cats[0], cats[1..];
      var syms := Symbols(TableOf(h, cat), map[]);
      var a, b := KeysOf(name, cat, syms), SymbolsOf(name, h, rest);
      AllowedPlus(a, b, allow);
      var none: Table := map[];
      SortedIncreasing(TableOf(h, cat).Keys + none.Keys);
      KeysOrdered(name, cat, syms, allow);
      assert forall i :: 0 <= i < |rest| ==> rest[i] == cats[i + 1];
      GoneOrdered(name, h, rest, allow);
      MsgPlus(AllowedLines(a, allow), AllowedLines(b, allow));
      CatsApart(MsgPlaces(AllowedLines(a, allow)), MsgPlaces(AllowedLines(b, allow)), name, cats, syms);
      JoinOrdered(MsgPlaces(AllowedLines(a, allow)), MsgPlaces(AllowedLines(b, allow)));
    }
  }

  lemma CoveredOrdered(name: string, h: Header, allow: Allowlist, w: Kind)
    requires AllAllowed(SymbolsOf(name, h, CATEGORIES), allow)
    ensures var ps := Places(Tally(AllowedLines(SymbolsOf(name, h, CATEGORIES), allow), [], []), w); Ordered(ps) && OnHeader(ps, name)
  {
    GoneOrdered(name, h, CATEGORIES, allow);
    LinesOnly(AllowedLines(SymbolsOf(name, h, CATEGORIES), allow), name, w);
  }

  lemma LinesOnly(lines: seq<Msg>, name: string, w: Kind)
    requires Ordered(MsgPlaces(lines)) && OnHeader(MsgPlaces(lines), name)
    ensures var ps := Places(Tally(lines, [], []), w); Ordered(ps) && OnHeader(ps, name)
  {
    if w == Lines { assert Places(Tally(lines, [], []), w) == MsgPlaces(lines); }
  }

  lemma OneOrdered(m: Msg, name: string, w: Kind)
    requires m == RemovedHeader(name) || m == AddedHeader(name)
    ensures var ps := Places(Tally([m], [], []), w); Ordered(ps) && OnHeader(ps, name)
  {
  }

  lemma HeaderOrdered(name: string, prev: Snapshot, curr: Snapshot, allow: Allowlist, w: Kind)
    requires name in prev || name in curr
    ensures var ps := Places(VisitHeader(name, prev, curr, allow), w); Ordered(ps) && OnHeader(ps, name)
  {
    if name in prev && name in curr {
      CatsOrdered(name, prev[name], curr[name], CATEGORIES, w);
    } else if name in prev {
      if AllAllowed(SymbolsOf(name, prev[name], CATEGORIES), allow) { CoveredOrdered(name, prev[name], allow, w); }
      OneOrdered(RemovedHeader(name), name, w);
    } else {
      OneOrdered(AddedHeader(name), name, w);
    }
  }

  ghost predicate OnHeaders(ps: seq<Place>, names: seq<string>) { forall x :: x in ps ==> x.header in names }

  lemma {:induction false} CollectOrdered(names: seq<string>, prev: Snapshot, curr: Snapshot, allow: Allowlist, w: Kind)
    requires (forall n :: n in names ==> n in prev || n in curr) && Increasing(names)
    ensures var ps := Places(Collect(names, prev, curr, allow), w); Ordered(ps) && OnHeaders(ps, names)
    decreases names
  {
    if names != [] {
      var n, rest := names[0], names[1..];
      FirstIsLess(names);
      HeaderOrdered(n, prev, curr, allow, w);
      CollectOrdered(rest, prev, curr, allow, w);
      PlusPlaces(VisitHeader(n, prev, curr, allow), Collect(rest, prev, curr, allow), w);
      JoinOrdered(Places(VisitHeader(n, prev, curr, allow), w), Places(Collect(rest, prev, curr, allow), w));
      assert names == [n] + rest;
    }
  }

  /** Losses and gains are collected, and the lines of the traversal written, by header,
      category and symbol; the lines on one symbol are its CHANGED line, its fields and its
      enumerators, by index. */
  lemma TraversalOrdered(prev: Snapshot, curr: Snapshot, allow: Allowlist)
    ensures var t := Collect(HeaderNames(prev, curr), prev, curr, allow);
            && (forall i, j :: 0 <= i < j < |t.msgs| ==> Earlier(LinePlace(t.msgs[i]), LinePlace(t.msgs[j])))
            && (forall i, j :: 0 <= i < j < |t.removed| ==> Earlier(KeyPlace(t.removed[i].key), KeyPlace(t.removed[j].key)))
            && (forall i, j :: 0 <= i < j < |t.added| ==> Earlier(KeyPlace(t.added[i].key), KeyPlace(t.added[j].key)))
  {
    SortedIncreasing(prev.Keys + curr.Keys);
    CollectOrdered(HeaderNames(prev, curr), prev, curr, allow, Lines);
    CollectOrdered(HeaderNames(prev, curr), prev, curr, allow, Lost);
    CollectOrdered(HeaderNames(prev, curr), prev, curr, allow, Gained);
  }
}
