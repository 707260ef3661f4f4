/** What the ABI gate promises: a diff without a blocking line has lost nothing
    unexplained, and every loss and gain is accounted for once. */
module AbiDiffLaws {
  import opened PyText
  import opened AbiDiff

  // ------------------------------------------------------- what the traversal sees

  /** A symbol in both snapshots' header `key.header`, present in `from` and absent in `to`. */
  ghost predicate Gone(e: Entry, from: Snapshot, to: Snapshot) {
    var k := e.key;
    && k.header in from && k.header in to
    && k.sym in TableOf(from[k.header], k.cat) && k.sym !in TableOf(to[k.header], k.cat)
    && e.record == TableOf(from[k.header], k.cat)[k.sym]
  }

  lemma {:induction false} SymsFacts(name: string, cat: Category, p: Table, c: Table, syms: seq<string>)
    requires forall s :: s in syms ==> s in p || s in c
    ensures var t := VisitSyms(name, cat, p, c, syms);
            && (forall e :: e in t.removed <==> e.key.header == name && e.key.cat == cat && e.key.sym in syms
                                                && e.key.sym in p && e.key.sym !in c && e.record == p[e.key.sym])
            && (forall e :: e in t.added <==> e.key.header == name && e.key.cat == cat && e.key.sym in syms
                                              && e.key.sym in c && e.key.sym !in p && e.record == c[e.key.sym])
    decreases syms
  {
    if syms != [] {
      SymsFacts(name, cat, p, c, syms[1..]);
      assert syms == [syms[0]] + syms[1..];
    }
  }

  lemma {:induction false} CatsFacts(name: string, p: Header, c: Header, cats: seq<Category>)
    ensures var t := VisitCats(name, p, c, cats);
            && (forall e :: e in t.removed <==> e.key.header == name && e.key.cat in cats
                                                && e.key.sym in TableOf(p, e.key.cat) && e.key.sym !in TableOf(c, e.key.cat)
                                                && e.record == TableOf(p, e.key.cat)[e.key.sym])
            && (forall e :: e in t.added <==> e.key.header == name && e.key.cat in cats
                                              && e.key.sym in TableOf(c, e.key.cat) && e.key.sym !in TableOf(p, e.key.cat)
                                              && e.record == TableOf(c, e.key.cat)[e.key.sym])
    decreases cats
  {
    if cats != [] {
      CatsFacts(name, p, c, cats[1..]);
      var cat := cats[0];
      SymsFacts(name, cat, TableOf(p, cat), TableOf(c, cat), Symbols(TableOf(p, cat), TableOf(c, cat)));
      assert cats == [cat] + cats[1..];
    }
  }

  lemma EveryCategory(cat: Category)
    ensures cat in CATEGORIES
  {
    match cat {
      case Functions => assert CATEGORIES[0] == cat;
      case Typedefs => assert CATEGORIES[1] == cat;
      case Macros => assert CATEGORIES[2] == cat;
      case Variables => assert CATEGORIES[3] == cat;
    }
  }

  lemma {:induction false} CollectEntries(names: seq<string>, prev: Snapshot, curr: Snapshot, allow: Allowlist)
    requires forall n :: n in names ==> n in prev || n in curr
    ensures var t := Collect(names, prev, curr, allow);
            && (forall e :: e in t.removed <==> e.key.header in names && Gone(e, prev, curr))
            && (forall e :: e in t.added <==> e.key.header in names && Gone(e, curr, prev))
    decreases names
  {
    if names != [] {
      CollectEntries(names[1..], prev, curr, allow);
      var n := names[0];
      assert names == [n] + names[1..];
      var t := VisitHeader(n, prev, curr, allow);
      if n in prev && n in curr {
        CatsFacts(n, prev[n], curr[n], CATEGORIES);
        forall e: Entry | e.key.header == n ensures e.key.cat in CATEGORIES { EveryCategory(e.key.cat); }
      }
      assert forall e :: e in t.removed <==> e.key.header == n && Gone(e, prev, curr);
      assert forall e :: e in t.added <==> e.key.header == n && Gone(e, curr, prev);
    }
  }

  /** The losses and gains collected are exactly the symbols that vanished from, or
      appeared in, a header both snapshots have; a brand-new header gains nothing. */
  lemma CollectExact(prev: Snapshot, curr: Snapshot, allow: Allowlist)
    ensures var t := Collect(HeaderNames(prev, curr), prev, curr, allow);
            && (forall e :: e in t.removed <==> Gone(e, prev, curr))
            && (forall e :: e in t.added <==> Gone(e, curr, prev))
  {
    CollectEntries(HeaderNames(prev, curr), prev, curr, allow);
  }

  lemma {:induction false} SymbolsOfAll(name: string, h: Header, cats: seq<Category>, cat: Category, sym: string)
    requires cat in cats && sym in TableOf(h, cat)
    ensures Key(name, cat, sym) in SymbolsOf(name, h, cats)
    decreases cats
  {
    if cats[0] == cat {
      var syms := Symbols(TableOf(h, cat), map[]);
      var keys := KeysOf(name, cat, syms);
      var i :| 0 <= i < |syms| && syms[i] == sym;
      assert keys[i] == Key(name, cat, sym);
    } else {
      assert cats == [cats[0]] + cats[1..];
      SymbolsOfAll(name, h, cats[1..], cat, sym);
    }
  }

  lemma {:induction false} CollectHeaderGone(names: seq<string>, prev: Snapshot, curr: Snapshot, allow: Allowlist, h: string)
    requires forall n :: n in names ==> n in prev || n in curr
    requires h in names && h in prev && h !in curr
    ensures || RemovedHeader(h) in Collect(names, prev, curr, allow).msgs
            || forall cat, sym :: sym in TableOf(prev[h], cat) ==> Key(h, cat, sym) in allow
    decreases names
  {
    assert names == [names[0]] + names[1..];
    if names[0] == h {
      if RemovedHeader(h) !in VisitHeader(h, prev, curr, allow).msgs {
        forall cat, sym | sym in TableOf(prev[h], cat) ensures Key(h, cat, sym) in allow {
          EveryCategory(cat);
          SymbolsOfAll(h, prev[h], CATEGORIES, cat, sym);
        }
      }
    } else {
      CollectHeaderGone(names[1..], prev, curr, allow, h);
    }
  }

  // ---------------------------------------------------------- what the matcher does

  function GainedOf(ds: seq<Decision>): seq<Entry> {
    if ds == [] then [] else (if ds[0].Move? then [ds[0].gained] else []) + GainedOf(ds[1..])
  }

  /** A move is by an included header, of equal content unless it is marked changed;
      a changed move is of the only loser and the only gainer of that name and kind. */
  ghost predicate Justified(d: Decision, removed: seq<Entry>, added: seq<Entry>, g: Graph) {
    d.Move? ==>
      && Fits(d.lost, d.gained, g, !d.changed)
      && (d.changed ==> !Fits(d.lost, d.gained, g, true) && NameCount(d.lost, removed) == 1 && NameCount(d.lost, added) == 1)
  }

  lemma WithoutCounts(un: seq<Entry>, i: nat)
    requires i < |un|
    ensures multiset(un) == multiset(Without(un, i)) + multiset{un[i]}
  {
    assert un == un[..i] + [un[i]] + un[i + 1..];
  }

  /** What the decisions `ds` on the losses `todo`, with `left` unmatched of `un`, satisfy. */
  ghost predicate Matched(todo: seq<Entry>, un: seq<Entry>, ds: seq<Decision>, left: seq<Entry>,
                          removed: seq<Entry>, added: seq<Entry>, g: Graph) {
    && |ds| == |todo|
    && (forall i :: 0 <= i < |todo| ==> ds[i].lost == todo[i])
    && multiset(un) == multiset(left) + multiset(GainedOf(ds))
    && (forall x :: x in ds ==> Justified(x, removed, added, g))
    && (forall x :: x in ds && x.Move? ==> x.gained in un)
    && (forall x, a :: x in ds && x.Loss? && a in left ==> !Fits(x.lost, a, g, true))
  }

  lemma {:induction false} DecideFacts(todo: seq<Entry>, un: seq<Entry>, removed: seq<Entry>, added: seq<Entry>, g: Graph)
    ensures var d := Decide(todo, un, removed, added, g); Matched(todo, un, d.0, d.1, removed, added, g)
    decreases todo
  {
    if todo == [] {
      assert multiset(un) == multiset(un) + multiset(GainedOf([]));
    } else {
      var c := Choose(todo[0], un, removed, added, g);
      DecideFacts(todo[1..], c.1, removed, added, g);
      var rest := Decide(todo[1..], c.1, removed, added, g);
      assert todo == [todo[0]] + todo[1..];
      assert Decide(todo, un, removed, added, g) == ([c.0] + rest.0, rest.1);
      MatchedMore(todo[0], todo[1..], un, rest.0, rest.1, removed, added, g);
    }
  }

  lemma MatchedMore(r: Entry, todo: seq<Entry>, un: seq<Entry>, ds: seq<Decision>, left: seq<Entry>, removed: seq<Entry>, added: seq<Entry>, g: Graph)
    requires Matched(todo, Choose(r, un, removed, added, g).1, ds, left, removed, added, g)
    ensures Matched([r] + todo, un, [Choose(r, un, removed, added, g).0] + ds, left, removed, added, g)
  {
    var c := Choose(r, un, removed, added, g);
    var all := [c.0] + ds;
    assert all[1..] == ds;
    ChooseFacts(r, un, removed, added, g);
    LeftoverKept(c.1, left, ds);
    assert multiset(GainedOf(all)) == multiset(if c.0.Move? then [c.0.gained] else []) + multiset(GainedOf(ds));
    forall x | x in all ensures x == c.0 || x in ds {
    }
  }

  lemma LeftoverKept(un: seq<Entry>, left: seq<Entry>, ds: seq<Decision>)
    requires multiset(un) == multiset(left) + multiset(GainedOf(ds))
    ensures forall a :: a in left ==> a in un
  {
    forall a | a in left ensures a in un { assert a in multiset(left); assert a in multiset(un); }
  }

  lemma ChooseFacts(r: Entry, un: seq<Entry>, removed: seq<Entry>, added: seq<Entry>, g: Graph)
    ensures var c := Choose(r, un, removed, added, g);
            && Justified(c.0, removed, added, g)
            && multiset(un) == multiset(c.1) + multiset(if c.0.Move? then [c.0.gained] else [])
            && (forall a :: a in c.1 ==> a in un)
            && (c.0.Move? ==> c.0.gained in un)
            && (c.0.Loss? ==> forall a :: a in un ==> !Fits(r, a, g, true))
  {
    var m := FindFit(r, un, g, true);
    if m.Some? {
      WithoutCounts(un, m.value);
    } else {
      var k := FindFit(r, un, g, false);
      if k.Some? { WithoutCounts(un, k.value); }
    }
  }

  // ------------------------------------------------------------------- accounting

  function KeysIn(es: seq<Entry>): (ks: seq<Key>)
    ensures |ks| == |es|
  {
    if es == [] then [] else [es[0].key] + KeysIn(es[1..])
  }

  function LossOf(m: Msg): seq<Key> { match m case Moved(lost, _) => [lost] case Allowed(k, _) => [k] case Removed(k) => [k] case _ => [] }

  function GainOf(m: Msg): seq<Key> { match m case Moved(lost, to) => [Key(to, lost.cat, lost.sym)] case Added(k) => [k] case _ => [] }

  /** The losses the lines speak for, in order. */
  function LossKeys(ms: seq<Msg>): seq<Key> { if ms == [] then [] else LossOf(ms[0]) + LossKeys(ms[1..]) }

  /** The gains the lines speak for. */
  function GainKeys(ms: seq<Msg>): seq<Key> { if ms == [] then [] else GainOf(ms[0]) + GainKeys(ms[1..]) }

  lemma {:induction false} KeyLinesAppend(a: seq<Msg>, b: seq<Msg>)
    ensures LossKeys(a + b) == LossKeys(a) + LossKeys(b)
    ensures GainKeys(a + b) == GainKeys(a) + GainKeys(b)
  {
    if a == [] {
      assert a + b == b;
    } else {
      assert (a + b)[0] == a[0] && (a + b)[1..] == a[1..] + b;
      KeyLinesAppend(a[1..], b);
      Assoc(LossOf(a[0]), LossKeys(a[1..]), LossKeys(b));
      Assoc(GainOf(a[0]), GainKeys(a[1..]), GainKeys(b));
    }
  }

  predicate Mute(ms: seq<Msg>) { forall m :: m in ms ==> m.ChangedMove? || m.MemberDetail? || m.TextDetail? || m.HashChanged? }

  lemma {:induction false} MuteKeys(ms: seq<Msg>)
    requires Mute(ms)
    ensures LossKeys(ms) == [] && GainKeys(ms) == []
  {
    if ms != [] {
      assert ms[0] in ms;
      MuteKeys(ms[1..]);
    }
  }

  lemma {:induction false} DetailsMute(part: Part, header: string, sym: string, p: seq<string>, c: seq<string>, i: nat)
    ensures Mute(DetailsFrom(part, header, sym, p, c, i))
    decreases Longest(p, c) - i
  {
    if i < Longest(p, c) { DetailsMute(part, header, sym, p, c, i + 1); }
  }

  lemma DecisionKeys(d: Decision, allow: Allowlist)
    requires d.Move? ==> d.gained.key.cat == d.lost.key.cat && d.gained.key.sym == d.lost.key.sym
    ensures LossKeys(DecisionLines(d, allow)) == [d.lost.key]
    ensures GainKeys(DecisionLines(d, allow)) == if d.Move? then [d.gained.key] else []
  {
    match d {
      case Loss(r) => assert DecisionLines(d, allow)[1..] == [];
      case Move(r, a, changed) =>
        var more := if changed then [ChangedMove(a.key, r.key.header)] + MovedDetail(a.key.header, r.key.sym, r.key.cat, r.record, a.record) else [];
        MovedMute(a.key.header, r.key.sym, r.key.cat, r.record, a.record);
        MuteKeys(more);
        var ms := DecisionLines(d, allow);
        assert ms == [Moved(r.key, a.key.header)] + more && ms[1..] == more;
    }
  }

  lemma MovedMute(header: string, sym: string, cat: Category, p: Record, c: Record)
    ensures Mute(MovedDetail(header, sym, cat, p, c))
  {
    DetailsMute(Field, header, sym, OrEmpty(p.fields), OrEmpty(c.fields), 0);
    DetailsMute(Enumerator, header, sym, OrEmpty(p.enumerators), OrEmpty(c.enumerators), 0);
  }

  ghost predicate MovesKeepNames(ds: seq<Decision>) {
    forall d :: d in ds && d.Move? ==> d.gained.key.cat == d.lost.key.cat && d.gained.key.sym == d.lost.key.sym
  }

  lemma ReportCons(ds: seq<Decision>, allow: Allowlist)
    requires ds != [] && MovesKeepNames(ds)
    ensures MovesKeepNames(ds[1..])
    ensures LossKeys(Report(ds, allow)) == [ds[0].lost.key] + LossKeys(Report(ds[1..], allow))
    ensures GainKeys(Report(ds, allow)) == (if ds[0].Move? then [ds[0].gained.key] else []) + GainKeys(Report(ds[1..], allow))
  {
    assert ds[0] in ds;
    assert forall d :: d in ds[1..] ==> d in ds;
    DecisionKeys(ds[0], allow);
    KeyLinesAppend(DecisionLines(ds[0], allow), Report(ds[1..], allow));
  }

  lemma {:induction false} ReportKeys(ds: seq<Decision>, allow: Allowlist)
    requires MovesKeepNames(ds)
    ensures |LossKeys(Report(ds, allow))| == |ds|
    ensures forall i :: 0 <= i < |ds| ==> LossKeys(Report(ds, allow))[i] == ds[i].lost.key
    ensures GainKeys(Report(ds, allow)) == KeysIn(GainedOf(ds))
  {
    if ds != [] {
      var rest := ds[1..];
      ReportCons(ds, allow);
      ReportKeys(rest, allow);
      GainedKeys(ds);
      KeysCons(ds, LossKeys(Report(rest, allow)));
    }
  }

  lemma KeysCons(ds: seq<Decision>, later: seq<Key>)
    requires ds != [] && |later| == |ds| - 1 && forall i :: 0 <= i < |ds[1..]| ==> later[i] == ds[1..][i].lost.key
    ensures forall i :: 0 <= i < |ds| ==> ([ds[0].lost.key] + later)[i] == ds[i].lost.key
  {
    var rest := ds[1..];
    forall i | 0 < i < |ds| ensures ([ds[0].lost.key] + later)[i] == ds[i].lost.key { assert ds[i] == rest[i - 1]; }
  }

  lemma GainedKeys(ds: seq<Decision>)
    requires ds != []
    ensures KeysIn(GainedOf(ds)) == (if ds[0].Move? then [ds[0].gained.key] else []) + KeysIn(GainedOf(ds[1..]))
  {
    var gs := GainedOf(ds[1..]);
    if ds[0].Move? { assert ([ds[0].gained] + gs)[1..] == gs; } else { assert [] + gs == gs; }
  }

  lemma {:induction false} AddedKeys(es: seq<Entry>)
    ensures GainKeys(AddedLines(es)) == KeysIn(es) && LossKeys(AddedLines(es)) == []
  {
    if es != [] {
      AddedKeys(es[1..]);
      assert AddedLines(es)[1..] == AddedLines(es[1..]);
    }
  }

  /** Summed key by key: equal bags of entries have equal bags of keys. */
  lemma {:induction false} KeysInCount(es: seq<Entry>, k: Key)
    ensures multiset(KeysIn(es))[k] == CountKey(es, k)
  {
    if es != [] {
      KeysInCount(es[1..], k);
      assert KeysIn(es) == [es[0].key] + KeysIn(es[1..]);
    }
  }

  function CountKey(es: seq<Entry>, k: Key): nat {
    if es == [] then 0 else (if es[0].key == k then 1 else 0) + CountKey(es[1..], k)
  }

  lemma {:induction false} CountKeyBag(a: seq<Entry>, b: seq<Entry>, k: Key)
    requires multiset(a) == multiset(b)
    ensures CountKey(a, k) == CountKey(b, k)
    decreases |a|
  {
    if a == [] {
      assert |multiset(b)| == 0;
    } else {
      assert a[0] in multiset(b);
      var i :| 0 <= i < |b| && b[i] == a[0];
      WithoutCounts(b, i);
      assert a == [a[0]] + a[1..];
      assert multiset(a[1..]) == multiset(a) - multiset{a[0]};
      assert multiset(Without(b, i)) == multiset(b) - multiset{b[i]};
      CountKeyBag(a[1..], Without(b, i), k);
      CountKeyWithout(b, i, k);
    }
  }

  lemma CountKeyWithout(b: seq<Entry>, i: nat, k: Key)
    requires i < |b|
    ensures CountKey(b, k) == CountKey(Without(b, i), k) + if b[i].key == k then 1 else 0
  {
    CountKeyAppend(b[..i], b[i + 1..], k);
    assert b == b[..i] + b[i..];
    CountKeyAppend(b[..i], b[i..], k);
    assert b[i..][1..] == b[i + 1..];
  }

  lemma {:induction false} CountKeyAppend(a: seq<Entry>, b: seq<Entry>, k: Key)
    ensures CountKey(a + b, k) == CountKey(a, k) + CountKey(b, k)
  {
    if a == [] {
      assert a + b == b;
    } else {
      assert (a + b)[0] == a[0] && (a + b)[1..] == a[1..] + b;
      CountKeyAppend(a[1..], b, k);
    }
  }

  /** Each loss is reported by exactly one MOVED, ALLOWED or REMOVED line, in order. */
  lemma LossesInOrder(removed: seq<Entry>, added: seq<Entry>, g: Graph, allow: Allowlist)
    ensures LossKeys(MatchLines(removed, added, g, allow)) == KeysIn(removed)
  {
    var d := Decide(removed, added, removed, added, g);
    DecideFacts(removed, added, removed, added, g);
    ReportKeys(d.0, allow);
    AddedKeys(d.1);
    KeyLinesAppend(Report(d.0, allow), AddedLines(d.1));
    var ks := LossKeys(Report(d.0, allow));
    forall i | 0 <= i < |removed| ensures ks[i] == KeysIn(removed)[i] {
      KeysInAt(removed, i);
      assert d.0[i].lost == removed[i];
    }
    assert ks == KeysIn(removed) && ks + [] == ks;
  }

  /** Each gain is used up by exactly one MOVED line or reported by one ADDED line. */
  lemma GainsOnce(removed: seq<Entry>, added: seq<Entry>, g: Graph, allow: Allowlist)
    ensures multiset(GainKeys(MatchLines(removed, added, g, allow))) == multiset(KeysIn(added))
  {
    var d := Decide(removed, added, removed, added, g);
    DecideFacts(removed, added, removed, added, g);
    ReportKeys(d.0, allow);
    AddedKeys(d.1);
    KeyLinesAppend(Report(d.0, allow), AddedLines(d.1));
    KeysInAppend(GainedOf(d.0), d.1);
    SameBagKeys(GainedOf(d.0) + d.1, added);
  }

  lemma {:induction false} KeysInAppend(a: seq<Entry>, b: seq<Entry>)
    ensures KeysIn(a + b) == KeysIn(a) + KeysIn(b)
  {
    if a == [] {
      assert a + b == b;
    } else {
      assert (a + b)[0] == a[0] && (a + b)[1..] == a[1..] + b;
      KeysInAppend(a[1..], b);
    }
  }

  lemma SameBagKeys(a: seq<Entry>, b: seq<Entry>)
    requires multiset(a) == multiset(b)
    ensures multiset(KeysIn(a)) == multiset(KeysIn(b))
  {
    forall k: Key ensures multiset(KeysIn(a))[k] == multiset(KeysIn(b))[k] {
      KeysInCount(a, k);
      KeysInCount(b, k);
      CountKeyBag(a, b, k);
    }
  }

  lemma {:induction false} KeysInAt(es: seq<Entry>, i: nat)
    requires i < |es|
    ensures KeysIn(es)[i] == es[i].key
  {
    if i > 0 { KeysInAt(es[1..], i - 1); }
  }

  // ---------------------------------------------------------------- gate soundness

  ghost predicate Passes(ms: seq<Msg>) { forall m :: m in ms ==> !Blocks(m) }

  lemma {:induction false} LossReported(ds: seq<Decision>, allow: Allowlist, i: nat)
    requires i < |ds|
    ensures ds[i].Loss? && ds[i].lost.key !in allow ==> Removed(ds[i].lost.key) in Report(ds, allow)
  {
    if i > 0 {
      LossReported(ds[1..], allow, i - 1);
      InLater(DecisionLines(ds[0], allow), Report(ds[1..], allow), Removed(ds[i].lost.key));
    } else {
      LossLine(ds[0], allow, Report(ds[1..], allow));
    }
  }

  lemma InLater(a: seq<Msg>, b: seq<Msg>, m: Msg)
    ensures m in b ==> m in a + b
  {
  }

  lemma LossLine(d: Decision, allow: Allowlist, rest: seq<Msg>)
    ensures d.Loss? && d.lost.key !in allow ==> Removed(d.lost.key) in DecisionLines(d, allow) + rest
  {
  }

  /** Where a symbol of an old header can still be found, or why it may be missing. */
  ghost predicate Explained(h: string, cat: Category, sym: string, curr: Snapshot, g: Graph, allow: Allowlist) {
    || (h in curr && sym in TableOf(curr[h], cat))
    || (exists a :: a in Edges(g, h) && a in curr && sym in TableOf(curr[a], cat))
    || Key(h, cat, sym) in allow
  }

  lemma LossExplained(removed: seq<Entry>, added: seq<Entry>, g: Graph, allow: Allowlist, i: nat)
    requires Passes(MatchLines(removed, added, g, allow)) && i < |removed|
    ensures var e := removed[i];
            || e.key in allow
            || exists a :: a in added && a.key.cat == e.key.cat && a.key.sym == e.key.sym
                           && a.key.header in Edges(g, e.key.header)
  {
    var ds := Decide(removed, added, removed, added, g).0;
    DecideFacts(removed, added, removed, added, g);
    LossReported(ds, allow, i);
    assert ds[i] in ds && ds[i].lost == removed[i];
    assert Justified(ds[i], removed, added, g);
    assert forall m :: m in Report(ds, allow) ==> m in MatchLines(removed, added, g, allow);
  }

  /** The gate is sound: when no line blocks, every symbol of every old header is
      still in that header, or in a header it includes, or removed on record. */
  lemma GateSound(prev: Snapshot, curr: Snapshot, g: Graph, allow: Allowlist, h: string, cat: Category, sym: string)
    requires Passes(Diff(prev, curr, g, allow))
    requires h in prev && sym in TableOf(prev[h], cat)
    ensures Explained(h, cat, sym, curr, g, allow)
  {
    PassesParts(prev, curr, g, allow);
    if h !in curr {
      CollectHeaderGone(HeaderNames(prev, curr), prev, curr, allow, h);
    } else if sym !in TableOf(curr[h], cat) {
      var t := Collect(HeaderNames(prev, curr), prev, curr, allow);
      var e := Entry(Key(h, cat, sym), TableOf(prev[h], cat)[sym]);
      CollectExact(prev, curr, allow);
      assert Gone(e, prev, curr);
      SymbolGone(e, curr, prev, t.removed, t.added, g, allow);
    }
  }

  lemma PassesParts(prev: Snapshot, curr: Snapshot, g: Graph, allow: Allowlist)
    requires Passes(Diff(prev, curr, g, allow))
    ensures var t := Collect(HeaderNames(prev, curr), prev, curr, allow);
            Passes(t.msgs) && Passes(MatchLines(t.removed, t.added, g, allow))
  {
    var t := Collect(HeaderNames(prev, curr), prev, curr, allow);
    assert forall m :: m in t.msgs ==> m in Diff(prev, curr, g, allow);
    assert forall m :: m in MatchLines(t.removed, t.added, g, allow) ==> m in Diff(prev, curr, g, allow);
  }

  lemma SymbolGone(e: Entry, curr: Snapshot, prev: Snapshot, removed: seq<Entry>, added: seq<Entry>, g: Graph, allow: Allowlist)
    requires Passes(MatchLines(removed, added, g, allow)) && e in removed
    requires forall a :: a in added ==> Gone(a, curr, prev)
    ensures Explained(e.key.header, e.key.cat, e.key.sym, curr, g, allow)
  {
    var i :| 0 <= i < |removed| && removed[i] == e;
    LossExplained(removed, added, g, allow, i);
    if e.key !in allow {
      var a :| a in added && a.key.cat == e.key.cat && a.key.sym == e.key.sym && a.key.header in Edges(g, e.key.header);
      assert Gone(a, curr, prev);
    }
  }

  /** Nothing reported lost has a left-over partner of equal category, name and
      content that its header includes; and no move is into a brand-new header. */
  lemma NoMissedMove(prev: Snapshot, curr: Snapshot, g: Graph, allow: Allowlist)
    ensures var t := Collect(HeaderNames(prev, curr), prev, curr, allow);
            var d := Decide(t.removed, t.added, t.removed, t.added, g);
            && (forall x, a :: x in d.0 && x.Loss? && a in d.1 ==> !Fits(x.lost, a, g, true))
            && (forall x :: x in d.0 && x.Move? ==> x.gained.key.header in prev && x.gained.key.header in curr)
  {
    var t := Collect(HeaderNames(prev, curr), prev, curr, allow);
    CollectExact(prev, curr, allow);
    DecideFacts(t.removed, t.added, t.removed, t.added, g);
  }

  // ------------------------------------------------------------ value-changed moves

  /** The content hash determines the sub-kind within a category. */
  ghost predicate HashFixesKind(es: seq<Entry>) {
    forall e, f :: e in es && f in es && e.key.cat == f.key.cat && e.record.hash == f.record.hash
                   ==> e.record.kind == f.record.kind
  }

  lemma {:induction false} NameCountTwo(e: Entry, es: seq<Entry>, i: nat, j: nat)
    requires i < j < |es| && SameName(e, es[i]) && SameName(e, es[j])
    ensures NameCount(e, es) >= 2
  {
    if i == 0 {
      NameCountOne(e, es[1..], j - 1);
    } else {
      NameCountTwo(e, es[1..], i - 1, j - 1);
    }
  }

  lemma {:induction false} NameCountOne(e: Entry, es: seq<Entry>, i: nat)
    requires i < |es| && SameName(e, es[i])
    ensures NameCount(e, es) >= 1
  {
    if i > 0 { NameCountOne(e, es[1..], i - 1); }
  }

  /** A value-changed move keeps the kind and never takes an entry that another lost
      symbol could have matched exactly, wherever that symbol stands in the list. */
  lemma ChangedMoveTakesNoOther(removed: seq<Entry>, added: seq<Entry>, g: Graph, i: nat, j: nat)
    requires HashFixesKind(removed + added)
    requires i < |removed| && j < |removed| && i != j
    ensures var d := Decide(removed, added, removed, added, g).0;
            |d| == |removed| &&
            (d[i].Move? && d[i].changed ==>
              && d[i].gained.record.kind == removed[i].record.kind
              && !Fits(removed[j], d[i].gained, g, true))
  {
    DecideFacts(removed, added, removed, added, g);
    var d := Decide(removed, added, removed, added, g).0;
    assert d[i] in d && Justified(d[i], removed, added, g) && d[i].lost == removed[i];
    if d[i].Move? && d[i].changed && Fits(removed[j], d[i].gained, g, true) {
      var r, a := removed[i], d[i].gained;
      assert a in removed + added && removed[j] in removed + added;
      assert SameName(r, removed[j]) && SameName(r, r);
      NameCountTwo(r, removed, if i < j then i else j, if i < j then j else i);
      assert false;
    }
  }

  /** Without that assumption it can: the hash of the one move's new content is the
      old content of a symbol of another kind. */
  lemma ChangedMoveNeedsHashKind()
    ensures exists removed, added, g, i: nat, j: nat ::
              i < |removed| && j < |removed| && i != j &&
              var d := Decide(removed, added, removed, added, g).0;
              |d| == |removed| && d[i].Move? && d[i].changed && Fits(removed[j], d[i].gained, g, true)
  {
    var r0 := Entry(Key("a.h", Typedefs, "x_t"), Record("1", Some("struct"), None, None, None));
    var r1 := Entry(Key("b.h", Typedefs, "x_t"), Record("2", Some("enum"), None, None, None));
    var a := Entry(Key("c.h", Typedefs, "x_t"), Record("2", Some("struct"), None, None, None));
    var g: Graph := map["a.h" := ["c.h"], "b.h" := ["c.h"]];
    assert |"struct"| != |"enum"| && !SameName(r0, r1);
    assert "1"[0] != "2"[0] && !Fits(r0, a, g, true);
    ChangedFirst(r0, r1, a, g);
  }

  lemma ChangedFirst(r0: Entry, r1: Entry, a: Entry, g: Graph)
    requires !Fits(r0, a, g, true) && Fits(r0, a, g, false) && SameName(r0, a) && !SameName(r0, r1) && Fits(r1, a, g, true)
    ensures var removed, added := [r0, r1], [a];
            var d := Decide(removed, added, removed, added, g).0;
            |d| == 2 && d[0] == Move(r0, a, true) && Fits(removed[1], d[0].gained, g, true)
  {
    var removed, added := [r0, r1], [a];
    assert removed[1..] == [r1] && [r1][1..] == [] && added[1..] == [];
    assert NameCount(r0, []) == 0;
    assert NameCount(r0, [r1]) == 0;
    assert NameCount(r0, removed) == 1;
    assert NameCount(r0, added) == 1;
    assert FindFit(r0, added, g, true) == None;
    assert FindFit(r0, added, g, false) == Some(0);
    assert Choose(r0, added, removed, added, g).0 == Move(r0, a, true);
    DecideFacts(removed, added, removed, added, g);
  }

  lemma FirstTakesFirst(r0: Entry, r1: Entry, a0: Entry, a1: Entry, g: Graph)
    requires Fits(r0, a0, g, true) && !Fits(r1, a1, g, true) && !Fits(r1, a1, g, false)
    ensures Decide([r0, r1], [a0, a1], [r0, r1], [a0, a1], g).0 == [Move(r0, a0, false), Loss(r1)]
  {
    var removed, added := [r0, r1], [a0, a1];
    assert removed[1..] == [r1];
    assert FindFit(r0, added, g, true) == Some(0);
    assert Without(added, 0) == [a1];
    DecideFacts([r1], [a1], removed, added, g);
    var rest := Decide([r1], [a1], removed, added, g).0;
    assert FindFit(r1, [a1], g, true) == None && FindFit(r1, [a1], g, false) == None;
    assert rest == [Loss(r1)];
  }

  /** The pairing is greedy, not maximum: a loss that could have been explained is
      reported lost when an earlier one took its only partner. */
  lemma GreedyIsNotMaximum()
    ensures exists r0, r1, a0, a1, g ::
              && Decide([r0, r1], [a0, a1], [r0, r1], [a0, a1], g).0 == [Move(r0, a0, false), Loss(r1)]
              && Fits(r1, a0, g, true) && Fits(r0, a1, g, true)
  {
    var rec := Record("1", None, None, None, None);
    var r0, r1 := Entry(Key("a", Macros, "X"), rec), Entry(Key("b", Macros, "X"), rec);
    var a0, a1 := Entry(Key("c", Macros, "X"), rec), Entry(Key("d", Macros, "X"), rec);
    var g: Graph := map["a" := ["c", "d"], "b" := ["c"]];
    assert "a"[0] != "b"[0] && "c"[0] != "d"[0];
    assert Edges(g, "a") == ["c", "d"] && Edges(g, "b") == ["c"];
    FirstTakesFirst(r0, r1, a0, a1, g);
  }

  // -------------------------------------------------------------- a snapshot and itself

  lemma {:induction false} SameSyms(name: string, cat: Category, p: Table, syms: seq<string>)
    requires forall s :: s in syms ==> s in p
    ensures VisitSyms(name, cat, p, p, syms) == NOTHING
    decreases syms
  {
    if syms != [] { SameSyms(name, cat, p, syms[1..]); }
  }

  lemma {:induction false} SameCats(name: string, p: Header, cats: seq<Category>)
    ensures VisitCats(name, p, p, cats) == NOTHING
    decreases cats
  {
    if cats != [] {
      SameSyms(name, cats[0], TableOf(p, cats[0]), Symbols(TableOf(p, cats[0]), TableOf(p, cats[0])));
      SameCats(name, p, cats[1..]);
    }
  }

  lemma {:induction false} SameHeaders(names: seq<string>, s: Snapshot, allow: Allowlist)
    requires forall n :: n in names ==> n in s
    ensures Collect(names, s, s, allow) == NOTHING
    decreases names
  {
    if names != [] {
      SameCats(names[0], s[names[0]], CATEGORIES);
      SameHeaders(names[1..], s, allow);
    }
  }

  /** A snapshot does not differ from itself. */
  lemma DiffSelf(s: Snapshot, g: Graph, allow: Allowlist)
    ensures Diff(s, s, g, allow) == []
  {
    SameHeaders(HeaderNames(s, s), s, allow);
  }
}
