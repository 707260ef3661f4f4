/** The ABI snapshot diff: a traversal that collects lost and gained symbols,
    then a greedy two-phase matcher that explains a loss as a move. */
module AbiDiff {
  import opened PyText

  datatype Category = Functions | Typedefs | Macros | Variables

  const CATEGORIES: seq<Category> := [Functions, Typedefs, Macros, Variables]

  /** One symbol's record. `text` is the category's descriptive field; `kind`,
      `fields` and `enumerators` are present on typedefs only. */
  datatype Record = Record(hash: string, kind: Option<string>, text: Option<string>,
                           fields: Option<seq<string>>, enumerators: Option<seq<string>>)

  type Table = map<string, Record>
  type Header = map<Category, Table>
  type Snapshot = map<string, Header>
  type Graph = map<string, seq<string>>

  datatype Key = Key(header: string, cat: Category, sym: string)
  datatype Removal = Removal(issue: int, replacement: Option<string>)
  type Allowlist = map<Key, Removal>

  datatype Entry = Entry(key: Key, record: Record)

  datatype Part = Field | Enumerator

  datatype Msg =
    | RemovedHeader(header: string)
    | AddedHeader(header: string)
    | Changed(key: Key)
    | MemberDetail(part: Part, index: nat, header: string, sym: string, was: Option<string>, now: Option<string>)
    | TextDetail(header: string, sym: string, was: Option<string>, now: Option<string>)
    | HashChanged
    | Moved(lost: Key, to: string)
    | ChangedMove(gained: Key, from: string)
    | Allowed(key: Key, entry: Removal)
    | Removed(key: Key)
    | Added(key: Key)

  /** The lines the freeze gate greps for. */
  predicate Blocks(m: Msg) { m.RemovedHeader? || m.Removed? }

  function TableOf(h: Header, cat: Category): Table { if cat in h then h[cat] else map[] }

  function Edges(g: Graph, header: string): seq<string> { if header in g then g[header] else [] }

  // ------------------------------------------------------------ member details

  function At(xs: seq<string>, i: nat): Option<string> { if i < |xs| then Some(xs[i]) else None }

  function OrEmpty(xs: Option<seq<string>>): seq<string> { if xs.Some? then xs.value else [] }

  function Longest(a: seq<string>, b: seq<string>): nat { if |a| > |b| then |a| else |b| }

  /** The lines for the members from index `i` on. */
  function DetailsFrom(part: Part, header: string, sym: string, p: seq<string>, c: seq<string>, i: nat): seq<Msg>
    decreases Longest(p, c) - i
  {
    if i >= Longest(p, c) then []
    else (if At(p, i) != At(c, i) then [MemberDetail(part, i, header, sym, At(p, i), At(c, i))] else [])
         + DetailsFrom(part, header, sym, p, c, i + 1)
  }

  function MemberDiff(part: Part, header: string, sym: string, p: Option<seq<string>>, c: Option<seq<string>>): seq<Msg> {
    if p.None? && c.None? then []
    else if OrEmpty(p) == OrEmpty(c) then []
    else DetailsFrom(part, header, sym, OrEmpty(p), OrEmpty(c), 0)
  }

  function FieldDiff(header: string, sym: string, p: Record, c: Record): seq<Msg> {
    MemberDiff(Field, header, sym, p.fields, c.fields) + MemberDiff(Enumerator, header, sym, p.enumerators, c.enumerators)
  }

  method MemberLines(part: Part, header: string, sym: string, p: Option<seq<string>>, c: Option<seq<string>>) returns (msgs: seq<Msg>)
    ensures msgs == MemberDiff(part, header, sym, p, c)
  {
    msgs := [];
    if p.None? && c.None? { return; }
    var pf, cf := OrEmpty(p), OrEmpty(c);
    if pf == cf { return; }
    var i := 0;
    while i < Longest(pf, cf)
      invariant msgs + DetailsFrom(part, header, sym, pf, cf, i) == DetailsFrom(part, header, sym, pf, cf, 0)
    {
      var pv, cv := At(pf, i), At(cf, i);
      var found := if pv != cv then [MemberDetail(part, i, header, sym, pv, cv)] else [];
      Assoc(msgs, found, DetailsFrom(part, header, sym, pf, cf, i + 1));
      msgs := msgs + found;
      i := i + 1;
    }
    assert msgs + [] == msgs;
  }

  function MovedDetail(header: string, sym: string, cat: Category, p: Record, c: Record): seq<Msg> {
    var lines := if cat == Typedefs then FieldDiff(header, sym, p, c) else [];
    if lines != [] then lines
    else if p.text != c.text then [TextDetail(header, sym, p.text, c.text)]
    else [HashChanged]
  }

  /** A detail line stands for exactly the indices at which the lists differ. */
  lemma {:induction false} DetailsExact(part: Part, header: string, sym: string, p: seq<string>, c: seq<string>, i: nat)
    ensures forall k: nat, was, now ::
              MemberDetail(part, k, header, sym, was, now) in DetailsFrom(part, header, sym, p, c, i)
              <==> i <= k < Longest(p, c) && At(p, k) != At(c, k) && was == At(p, k) && now == At(c, k)
    decreases Longest(p, c) - i
  {
    if i < Longest(p, c) { DetailsExact(part, header, sym, p, c, i + 1); }
  }

  /** The old members and the detail lines together determine the new members. */
  lemma MemberDiffDetermines(part: Part, header: string, sym: string, p: seq<string>, c: seq<string>, d: seq<string>)
    requires MemberDiff(part, header, sym, Some(p), Some(c)) == MemberDiff(part, header, sym, Some(p), Some(d))
    ensures c == d
  {
    DetailsExact(part, header, sym, p, c, 0);
    DetailsExact(part, header, sym, p, d, 0);
    DetailsSame(part, header, sym, p, 0);
    forall k: nat ensures At(c, k) == At(d, k) {
      DetailHas(part, header, sym, p, c, d, k);
      DetailHas(part, header, sym, p, d, c, k);
    }
    assert At(c, |c|) == At(d, |c|) && At(c, |d|) == At(d, |d|);
    assert |c| == |d|;
    forall k | 0 <= k < |c| ensures c[k] == d[k] { assert At(c, k) == At(d, k); }
  }

  lemma {:induction false} DetailsSame(part: Part, header: string, sym: string, p: seq<string>, i: nat)
    ensures DetailsFrom(part, header, sym, p, p, i) == []
    decreases Longest(p, p) - i
  {
    if i < Longest(p, p) { DetailsSame(part, header, sym, p, i + 1); }
  }

  lemma DetailHas(part: Part, header: string, sym: string, p: seq<string>, c: seq<string>, d: seq<string>, k: nat)
    requires MemberDiff(part, header, sym, Some(p), Some(c)) == MemberDiff(part, header, sym, Some(p), Some(d))
    ensures At(p, k) != At(c, k) ==> At(d, k) == At(c, k)
  {
    DetailsExact(part, header, sym, p, c, 0);
    DetailsExact(part, header, sym, p, d, 0);
    DetailsSame(part, header, sym, p, 0);
    if At(p, k) != At(c, k) {
      assert MemberDetail(part, k, header, sym, At(p, k), At(c, k)) in DetailsFrom(part, header, sym, p, c, 0);
    }
  }

  // ------------------------------------------------------------- the traversal

  /** What the traversal appends: messages, lost symbols, gained symbols. */
  datatype Tally = Tally(msgs: seq<Msg>, removed: seq<Entry>, added: seq<Entry>)

  const NOTHING := Tally([], [], [])

  function Plus(a: Tally, b: Tally): Tally {
    Tally(a.msgs + b.msgs, a.removed + b.removed, a.added + b.added)
  }

  /** One symbol of a header present in both snapshots. */
  function Visit(name: string, cat: Category, p: Table, c: Table, sym: string): Tally
    requires sym in p || sym in c
  {
    var key := Key(name, cat, sym);
    if sym !in c then Tally([], [Entry(key, p[sym])], [])
    else if sym !in p then Tally([], [], [Entry(key, c[sym])])
    else if p[sym].hash != c[sym].hash then
      Tally([Changed(key)] + (if cat == Typedefs then FieldDiff(name, sym, p[sym], c[sym]) else []), [], [])
    else NOTHING
  }

  function VisitSyms(name: string, cat: Category, p: Table, c: Table, syms: seq<string>): Tally
    requires forall s :: s in syms ==> s in p || s in c
    decreases syms
  {
    if syms == [] then NOTHING
    else Plus(Visit(name, cat, p, c, syms[0]), VisitSyms(name, cat, p, c, syms[1..]))
  }

  function Symbols(p: Table, c: Table): (syms: seq<string>)
    ensures forall s :: s in syms <==> s in p || s in c
  {
    SortedKeysLists(p.Keys + c.Keys);
    SortedKeys(p.Keys + c.Keys)
  }

  function VisitCats(name: string, p: Header, c: Header, cats: seq<Category>): Tally
    decreases cats
  {
    if cats == [] then NOTHING
    else Plus(VisitSyms(name, cats[0], TableOf(p, cats[0]), TableOf(c, cats[0]), Symbols(TableOf(p, cats[0]), TableOf(c, cats[0]))),
              VisitCats(name, p, c, cats[1..]))
  }

  /** Every symbol of a header, in report order. */
  function SymbolsOf(name: string, h: Header, cats: seq<Category>): seq<Key>
    decreases cats
  {
    if cats == [] then []
    else KeysOf(name, cats[0], Symbols(TableOf(h, cats[0]), map[])) + SymbolsOf(name, h, cats[1..])
  }

  function KeysOf(name: string, cat: Category, syms: seq<string>): (keys: seq<Key>)
    ensures |keys| == |syms| && forall i :: 0 <= i < |syms| ==> keys[i] == Key(name, cat, syms[i])
    decreases syms
  {
    if syms == [] then [] else [Key(name, cat, syms[0])] + KeysOf(name, cat, syms[1..])
  }

  predicate AllAllowed(keys: seq<Key>, allow: Allowlist) { forall k :: k in keys ==> k in allow }

  function AllowedLines(keys: seq<Key>, allow: Allowlist): seq<Msg>
    requires AllAllowed(keys, allow)
  {
    if keys == [] then [] else [Allowed(keys[0], allow[keys[0]])] + AllowedLines(keys[1..], allow)
  }

  function VisitHeader(name: string, prev: Snapshot, curr: Snapshot, allow: Allowlist): Tally
    requires name in prev || name in curr
  {
    if name !in curr then
      var gone := SymbolsOf(name, prev[name], CATEGORIES);
      if gone != [] && AllAllowed(gone, allow) then Tally(AllowedLines(gone, allow), [], [])
      else Tally([RemovedHeader(name)], [], [])
    else if name !in prev then Tally([AddedHeader(name)], [], [])
    else VisitCats(name, prev[name], curr[name], CATEGORIES)
  }

  function Collect(names: seq<string>, prev: Snapshot, curr: Snapshot, allow: Allowlist): Tally
    requires forall n :: n in names ==> n in prev || n in curr
    decreases names
  {
    if names == [] then NOTHING
    else Plus(VisitHeader(names[0], prev, curr, allow), Collect(names[1..], prev, curr, allow))
  }

  function HeaderNames(prev: Snapshot, curr: Snapshot): (names: seq<string>)
    ensures forall n :: n in names <==> n in prev || n in curr
  {
    SortedKeysLists(prev.Keys + curr.Keys);
    SortedKeys(prev.Keys + curr.Keys)
  }

  // --------------------------------------------------------------- the matcher

  /** A gained symbol that explains the loss `r`: same name, same content or (when
      not `exact`) same kind, in a header the losing header includes. */
  predicate Fits(r: Entry, a: Entry, g: Graph, exact: bool) {
    && a.key.cat == r.key.cat && a.key.sym == r.key.sym
    && (if exact then a.record.hash == r.record.hash else a.record.kind == r.record.kind)
    && a.key.header in Edges(g, r.key.header)
  }

  function FindFit(r: Entry, un: seq<Entry>, g: Graph, exact: bool): (i: Option<nat>)
    ensures i.Some? ==> i.value < |un| && Fits(r, un[i.value], g, exact) && forall j :: 0 <= j < i.value ==> !Fits(r, un[j], g, exact)
    ensures i.None? ==> forall j :: 0 <= j < |un| ==> !Fits(r, un[j], g, exact)
    decreases un
  {
    if un == [] then None
    else if Fits(r, un[0], g, exact) then Some(0)
    else
      var rest := FindFit(r, un[1..], g, exact);
      if rest.Some? then Some(rest.value + 1) else None
  }

  predicate SameName(e: Entry, f: Entry) {
    e.key.cat == f.key.cat && e.key.sym == f.key.sym && e.record.kind == f.record.kind
  }

  /** How many entries carry `e`'s category, name and kind. */
  function NameCount(e: Entry, es: seq<Entry>): nat {
    if es == [] then 0 else (if SameName(e, es[0]) then 1 else 0) + NameCount(e, es[1..])
  }

  datatype Decision = Move(lost: Entry, gained: Entry, changed: bool) | Loss(lost: Entry)

  function Without(un: seq<Entry>, i: nat): seq<Entry>
    requires i < |un|
  {
    un[..i] + un[i + 1..]
  }

  /** The candidate taken for `r` out of the gained entries still unmatched. */
  function Choose(r: Entry, un: seq<Entry>, removed: seq<Entry>, added: seq<Entry>, g: Graph): (d: (Decision, seq<Entry>))
    ensures d.0.lost == r
  {
    var m := FindFit(r, un, g, true);
    if m.Some? then (Move(r, un[m.value], false), Without(un, m.value))
    else if NameCount(r, removed) == 1 && NameCount(r, added) == 1 then
      var k := FindFit(r, un, g, false);
      if k.Some? then (Move(r, un[k.value], true), Without(un, k.value)) else (Loss(r), un)
    else (Loss(r), un)
  }

  /** The decisions on the losses `todo` in order, and what stays unmatched. */
  function Decide(todo: seq<Entry>, un: seq<Entry>, removed: seq<Entry>, added: seq<Entry>, g: Graph): (seq<Decision>, seq<Entry>)
    decreases todo
  {
    if todo == [] then ([], un)
    else
      var d := Choose(todo[0], un, removed, added, g);
      var rest := Decide(todo[1..], d.1, removed, added, g);
      ([d.0] + rest.0, rest.1)
  }

  function DecisionLines(d: Decision, allow: Allowlist): seq<Msg> {
    match d
    case Move(r, a, changed) =>
      [Moved(r.key, a.key.header)]
      + (if changed then [ChangedMove(a.key, r.key.header)] + MovedDetail(a.key.header, r.key.sym, r.key.cat, r.record, a.record) else [])
    case Loss(r) => if r.key in allow then [Allowed(r.key, allow[r.key])] else [Removed(r.key)]
  }

  function Report(ds: seq<Decision>, allow: Allowlist): seq<Msg> {
    if ds == [] then [] else DecisionLines(ds[0], allow) + Report(ds[1..], allow)
  }

  function AddedLines(es: seq<Entry>): seq<Msg> {
    if es == [] then [] else [Added(es[0].key)] + AddedLines(es[1..])
  }

  /** The lines on the losses, then those on the gains left over. */
  function MatchLines(removed: seq<Entry>, added: seq<Entry>, g: Graph, allow: Allowlist): seq<Msg> {
    var d := Decide(removed, added, removed, added, g);
    Report(d.0, allow) + AddedLines(d.1)
  }

  /** The whole diff. */
  function Diff(prev: Snapshot, curr: Snapshot, g: Graph, allow: Allowlist): seq<Msg> {
    var t := Collect(HeaderNames(prev, curr), prev, curr, allow);
    t.msgs + MatchLines(t.removed, t.added, g, allow)
  }

  // ----------------------------------------------------------- the source's loops

  lemma PlusAssoc(a: Tally, b: Tally, c: Tally)
    ensures Plus(Plus(a, b), c) == Plus(a, Plus(b, c)) && Plus(NOTHING, a) == a && Plus(a, NOTHING) == a
  {
    assert a.msgs + b.msgs + c.msgs == a.msgs + (b.msgs + c.msgs);
    assert a.removed + b.removed + c.removed == a.removed + (b.removed + c.removed);
    assert a.added + b.added + c.added == a.added + (b.added + c.added);
    assert [] + a.msgs == a.msgs && [] + a.removed == a.removed && [] + a.added == a.added;
    assert a.msgs + [] == a.msgs && a.removed + [] == a.removed && a.added + [] == a.added;
  }

  method CollectSyms(name: string, cat: Category, p: Table, c: Table) returns (t: Tally)
    ensures t == VisitSyms(name, cat, p, c, Symbols(p, c))
  {
    t := NOTHING;
    var syms := Symbols(p, c);
    PlusAssoc(VisitSyms(name, cat, p, c, syms), NOTHING, NOTHING);
    for i := 0 to |syms|
      invariant Plus(t, VisitSyms(name, cat, p, c, syms[i..])) == VisitSyms(name, cat, p, c, syms)
    {
      assert syms[i..][0] == syms[i] && syms[i..][1..] == syms[i + 1..];
      PlusAssoc(t, Visit(name, cat, p, c, syms[i]), VisitSyms(name, cat, p, c, syms[i + 1..]));
      t := Plus(t, Visit(name, cat, p, c, syms[i]));
    }
    PlusAssoc(t, NOTHING, NOTHING);
  }

  method CollectCats(name: string, p: Header, c: Header, cats: seq<Category>) returns (t: Tally)
    ensures t == VisitCats(name, p, c, cats)
  {
    t := NOTHING;
    PlusAssoc(VisitCats(name, p, c, cats), NOTHING, NOTHING);
    for k := 0 to |cats|
      invariant Plus(t, VisitCats(name, p, c, cats[k..])) == VisitCats(name, p, c, cats)
    {
      assert cats[k..][0] == cats[k] && cats[k..][1..] == cats[k + 1..];
      var one := CollectSyms(name, cats[k], TableOf(p, cats[k]), TableOf(c, cats[k]));
      PlusAssoc(t, one, VisitCats(name, p, c, cats[k + 1..]));
      t := Plus(t, one);
    }
    PlusAssoc(t, NOTHING, NOTHING);
  }

  method CollectAll(prev: Snapshot, curr: Snapshot, allow: Allowlist) returns (t: Tally)
    ensures t == Collect(HeaderNames(prev, curr), prev, curr, allow)
  {
    t := NOTHING;
    var names := HeaderNames(prev, curr);
    PlusAssoc(Collect(names, prev, curr, allow), NOTHING, NOTHING);
    for i := 0 to |names|
      invariant Plus(t, Collect(names[i..], prev, curr, allow)) == Collect(names, prev, curr, allow)
    {
      var name := names[i];
      assert names[i..][0] == name && names[i..][1..] == names[i + 1..];
      PlusAssoc(t, VisitHeader(name, prev, curr, allow), Collect(names[i + 1..], prev, curr, allow));
      if name in prev && name in curr {
        var seen := CollectCats(name, prev[name], curr[name], CATEGORIES);
        t := Plus(t, seen);
      } else {
        t := Plus(t, VisitHeader(name, prev, curr, allow));
      }
    }
    PlusAssoc(t, NOTHING, NOTHING);
  }

  type Name = (Category, string, Option<string>)

  function NameOf(e: Entry): Name { (e.key.cat, e.key.sym, e.record.kind) }

  /** `counts.get(name, 0)`. */
  function Got(counts: map<Name, nat>, name: Name): nat { if name in counts then counts[name] else 0 }

  ghost predicate CountsOf(counts: map<Name, nat>, es: seq<Entry>) { forall e: Entry :: Got(counts, NameOf(e)) == NameCount(e, es) }

  lemma {:induction false} NameCountSnoc(e: Entry, es: seq<Entry>, x: Entry)
    ensures NameCount(e, es + [x]) == NameCount(e, es) + if SameName(e, x) then 1 else 0
  {
    if es == [] {
      assert es + [x] == [x] && [x][1..] == [];
    } else {
      assert (es + [x])[0] == es[0] && (es + [x])[1..] == es[1..] + [x];
      NameCountSnoc(e, es[1..], x);
    }
  }

  /** The count loops: how many entries carry each category, name and kind. */
  method CountNames(es: seq<Entry>) returns (counts: map<Name, nat>)
    ensures CountsOf(counts, es)
  {
    counts := map[];
    for i := 0 to |es|
      invariant CountsOf(counts, es[..i])
    {
      ghost var before := counts;
      var name := NameOf(es[i]);
      counts := counts[name := Got(counts, name) + 1];
      assert es[..i + 1] == es[..i] + [es[i]];
      forall e: Entry ensures Got(counts, NameOf(e)) == NameCount(e, es[..i + 1]) {
        NameCountSnoc(e, es[..i], es[i]);
        assert Got(before, NameOf(e)) == NameCount(e, es[..i]);
      }
    }
    assert es[..|es|] == es;
  }

  /** The candidate scans: the first unmatched gain that fits. */
  method FindCandidate(r: Entry, un: seq<Entry>, g: Graph, exact: bool) returns (found: Option<nat>)
    ensures found == FindFit(r, un, g, exact)
  {
    for i := 0 to |un|
      invariant forall j :: 0 <= j < i ==> !Fits(r, un[j], g, exact)
    {
      if Fits(r, un[i], g, exact) { return Some(i); }
    }
    found := None;
  }

  /** One loss: the candidate taken off the unmatched list, and the lines about it. */
  method MatchOne(r: Entry, unmatched: seq<Entry>, removed: map<Name, nat>, added: map<Name, nat>, g: Graph, allow: Allowlist,
                  ghost losses: seq<Entry>, ghost gains: seq<Entry>)
    returns (lines: seq<Msg>, un: seq<Entry>)
    requires CountsOf(removed, losses) && CountsOf(added, gains)
    ensures var d := Choose(r, unmatched, losses, gains, g);
            lines == DecisionLines(d.0, allow) && un == d.1
  {
    un := unmatched;
    var changed := false;
    var idx := FindCandidate(r, un, g, true);
    if idx.None? && Got(removed, NameOf(r)) == 1 && Got(added, NameOf(r)) == 1 {
      idx := FindCandidate(r, un, g, false);
      changed := idx.Some?;
    }
    if idx.Some? {
      var a := un[idx.value];
      un := un[..idx.value] + un[idx.value + 1..];
      lines := [Moved(r.key, a.key.header)];
      if changed {
        lines := lines + ([ChangedMove(a.key, r.key.header)] + MovedDetail(a.key.header, r.key.sym, r.key.cat, r.record, a.record));
      } else {
        assert lines == lines + [];
      }
    } else if r.key in allow {
      lines := [Allowed(r.key, allow[r.key])];
    } else {
      lines := [Removed(r.key)];
    }
  }

  /** The match loop. */
  method ReportLosses(removed: seq<Entry>, added: seq<Entry>, g: Graph, allow: Allowlist) returns (msgs: seq<Msg>, un: seq<Entry>)
    ensures var d := Decide(removed, added, removed, added, g);
            msgs == Report(d.0, allow) && un == d.1
  {
    var lost := CountNames(removed);
    var gained := CountNames(added);
    msgs, un := [], added;
    ghost var all := Decide(removed, added, removed, added, g);
    var i := 0;
    while i < |removed|
      invariant 0 <= i <= |removed|
      invariant Decide(removed[i..], un, removed, added, g).1 == all.1
      invariant msgs + Report(Decide(removed[i..], un, removed, added, g).0, allow) == Report(all.0, allow)
    {
      var r := removed[i];
      assert removed[i..][0] == r && removed[i..][1..] == removed[i + 1..];
      ghost var d := Choose(r, un, removed, added, g);
      DecideStep(r, removed[i + 1..], un, removed, added, g, allow);
      assert removed[i..] == [r] + removed[i + 1..];
      Assoc(msgs, DecisionLines(d.0, allow), Report(Decide(removed[i + 1..], d.1, removed, added, g).0, allow));
      var lines, left := MatchOne(r, un, lost, gained, g, allow, removed, added);
      msgs, un := msgs + lines, left;
      i := i + 1;
    }
    assert removed[i..] == [] && msgs + [] == msgs;
  }

  lemma DecideStep(r: Entry, todo: seq<Entry>, un: seq<Entry>, removed: seq<Entry>, added: seq<Entry>, g: Graph, allow: Allowlist)
    ensures var d := Choose(r, un, removed, added, g);
            var later, all := Decide(todo, d.1, removed, added, g), Decide([r] + todo, un, removed, added, g);
            all.1 == later.1 && Report(all.0, allow) == DecisionLines(d.0, allow) + Report(later.0, allow)
  {
    var d := Choose(r, un, removed, added, g);
    var later := Decide(todo, d.1, removed, added, g).0;
    assert ([r] + todo)[1..] == todo;
    assert ([d.0] + later)[1..] == later;
  }

  method ReportGains(un: seq<Entry>) returns (msgs: seq<Msg>)
    ensures msgs == AddedLines(un)
  {
    msgs := [];
    for k := 0 to |un|
      invariant msgs + AddedLines(un[k..]) == AddedLines(un)
    {
      assert un[k..][0] == un[k] && un[k..][1..] == un[k + 1..];
      msgs := msgs + [Added(un[k].key)];
    }
    assert msgs + [] == msgs;
  }

  /** The diff as the source runs it: the traversal, the match loop, the leftovers. */
  method RunDiff(prev: Snapshot, curr: Snapshot, g: Graph, allow: Allowlist) returns (msgs: seq<Msg>)
    ensures msgs == Diff(prev, curr, g, allow)
  {
    var t := CollectAll(prev, curr, allow);
    var lines, un := ReportLosses(t.removed, t.added, g, allow);
    var gains := ReportGains(un);
    msgs := t.msgs + (lines + gains);
  }
}
