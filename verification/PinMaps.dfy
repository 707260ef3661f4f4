/** Pad and `doc:` maps of a scaffold: each `pins:` entry is resolved to the route that
    plays the same role on the other board, the resolutions are folded into one flat
    map, and the map is applied to the board file one key at a time. */
module PinMaps {
  import opened PyText
  import opened Renames

  /** A board route; a field that is missing or is no string is None. */
  datatype Route = Route(name: Option<string>, macro: Option<string>, pad: Option<string>, doc: Option<string>)

  /** A `pins:` entry; a bare pad string has no macro and no doc. */
  datatype Item = Item(pad: Option<string>, macro: Option<string>, doc: Option<string>)

  /** Source routes, target routes, and whether the two boards are one. */
  datatype Boards = Boards(source: seq<Route>, target: seq<Route>, same: bool)

  datatype Target = Nothing | Unresolved | To(route: Route)

  // ---------------------------------------------------------------- one entry

  function ByMacro(routes: seq<Route>, m: string): (i: Option<nat>)
    ensures i.Some? ==> i.value < |routes| && routes[i.value].macro == Some(m)
                        && forall j :: 0 <= j < i.value ==> routes[j].macro != Some(m)
    ensures i.None? ==> forall j :: 0 <= j < |routes| ==> routes[j].macro != Some(m)
  {
    if routes == [] then None
    else if routes[0].macro == Some(m) then Some(0)
    else var r := ByMacro(routes[1..], m); if r.Some? then Some(r.value + 1) else None
  }

  function WithPad(routes: seq<Route>, pad: string): seq<Route> {
    if routes == [] then []
    else (if routes[0].pad == Some(pad) then [routes[0]] else []) + WithPad(routes[1..], pad)
  }

  /** The board alias of an entry: by macro when it has one, by pad only when exactly
      one route claims the pad. */
  function AliasFor(routes: seq<Route>, pad: string, macro: Option<string>): Option<string> {
    if macro.Some? then
      var i := ByMacro(routes, macro.value);
      if i.Some? then routes[i.value].name else None
    else
      var hits := WithPad(routes, pad);
      if |hits| != 1 then None else hits[0].name
  }

  /** The last route with that alias: the alias table is a dictionary filled in order. */
  function RouteByAlias(routes: seq<Route>, name: string): (r: Option<Route>)
    ensures r.Some? ==> r.value in routes && r.value.name == Some(name)
    ensures r.None? ==> forall q :: q in routes ==> q.name != Some(name)
  {
    if routes == [] then None
    else if routes[|routes| - 1].name == Some(name) then Some(routes[|routes| - 1])
    else RouteByAlias(routes[..|routes| - 1], name)
  }

  function TargetOf(item: Item, b: Boards): Target {
    if b.same || item.pad.None? then Nothing
    else
      var name := AliasFor(b.source, item.pad.value, item.macro);
      if name.None? then Unresolved
      else
        var r := RouteByAlias(b.target, name.value);
        if r.None? then Unresolved else To(r.value)
  }

  lemma {:induction false} WithPadUnique(routes: seq<Route>, pad: string, i: nat)
    requires i < |routes| && routes[i].pad == Some(pad)
    ensures |WithPad(routes, pad)| >= 1
    ensures |WithPad(routes, pad)| == 1 <==> forall j :: 0 <= j < |routes| && j != i ==> routes[j].pad != Some(pad)
    ensures |WithPad(routes, pad)| == 1 ==> WithPad(routes, pad)[0] == routes[i]
    decreases |routes|
  {
    var rest := routes[1..];
    assert forall j :: 0 <= j < |rest| ==> rest[j] == routes[j + 1];
    WithPadNone(rest, pad);
    if i > 0 {
      WithPadUnique(rest, pad, i - 1);
      assert (forall j :: 0 <= j < |rest| && j != i - 1 ==> rest[j].pad != Some(pad)) ==>
             forall j :: 1 <= j < |routes| && j != i ==> routes[j].pad != Some(pad) by {
        assert forall j :: 1 <= j < |routes| ==> routes[j] == rest[j - 1];
      }
    }
  }

  lemma {:induction false} WithPadNone(routes: seq<Route>, pad: string)
    ensures WithPad(routes, pad) == [] <==> forall j :: 0 <= j < |routes| ==> routes[j].pad != Some(pad)
  {
    if routes != [] {
      var rest := routes[1..];
      assert forall j :: 0 <= j < |rest| ==> rest[j] == routes[j + 1];
      WithPadNone(rest, pad);
      assert forall j :: 1 <= j < |routes| ==> routes[j] == rest[j - 1];
    }
  }

  /** A resolved entry keeps its role: source route and target route share one alias;
      the source route has the entry's macro, or is the only one on the entry's pad. */
  lemma RoleKept(item: Item, b: Boards)
    requires TargetOf(item, b).To?
    ensures TargetOf(item, b).route in b.target
    ensures exists i :: 0 <= i < |b.source| && b.source[i].name.Some? && b.source[i].name == TargetOf(item, b).route.name
              && if item.macro.Some? then b.source[i].macro == item.macro
                 else b.source[i].pad == item.pad && forall j :: 0 <= j < |b.source| && j != i ==> b.source[j].pad != item.pad
  {
    if item.macro.None? {
      var pad := item.pad.value;
      WithPadNone(b.source, pad);
      var i :| 0 <= i < |b.source| && b.source[i].pad == Some(pad);
      WithPadUnique(b.source, pad, i);
      assert b.source[i].name == TargetOf(item, b).route.name;
    } else {
      var i := ByMacro(b.source, item.macro.value).value;
      assert b.source[i].name == TargetOf(item, b).route.name;
    }
  }

  // ---------------------------------------------------------- what entries ask for

  /** `was` is the map key, `same` the field as it stands, `now` what it should read. */
  datatype Intent<V> = Silent | Fails | Wants(was: string, same: V, now: V)

  function PadIntent(item: Item, b: Boards): Intent<string> {
    match TargetOf(item, b)
    case Nothing => Silent
    case Unresolved => Fails
    case To(r) => if r.pad.None? then Fails else Wants(item.pad.value, item.pad.value, r.pad.value)
  }

  /** `None` asks for the field to be dropped. */
  function DocIntent(item: Item, b: Boards): Intent<Option<string>> {
    if item.doc.None? then Silent
    else match TargetOf(item, b)
         case Nothing => Silent
         case Unresolved => Fails
         case To(r) => Wants(item.doc.value, Some(item.doc.value), r.doc)
  }

  function PadIntents(items: seq<Item>, b: Boards): (r: seq<Intent<string>>)
    ensures |r| == |items| && forall i :: 0 <= i < |items| ==> r[i] == PadIntent(items[i], b)
  {
    if items == [] then [] else [PadIntent(items[0], b)] + PadIntents(items[1..], b)
  }

  function DocIntents(items: seq<Item>, b: Boards): (r: seq<Intent<Option<string>>>)
    ensures |r| == |items| && forall i :: 0 <= i < |items| ==> r[i] == DocIntent(items[i], b)
  {
    if items == [] then [] else [DocIntent(items[0], b)] + DocIntents(items[1..], b)
  }

  ghost predicate NoFailure<V>(xs: seq<Intent<V>>) { forall i :: 0 <= i < |xs| ==> !xs[i].Fails? }

  predicate Changes<V(==)>(x: Intent<V>) { x.Wants? && x.now != x.same }

  /** Two entries want one key to become two different things. */
  ghost predicate Clash<V>(xs: seq<Intent<V>>) {
    exists i, j :: 0 <= i < |xs| && 0 <= j < |xs| && xs[i].Wants? && xs[j].Wants? && xs[i].was == xs[j].was && xs[i].now != xs[j].now
  }

  /** Two entries change one key into two different things. */
  ghost predicate MoveClash<V>(xs: seq<Intent<V>>) {
    exists i, j :: 0 <= i < |xs| && 0 <= j < |xs| && Changes(xs[i]) && Changes(xs[j]) && xs[i].was == xs[j].was && xs[i].now != xs[j].now
  }

  /** One entry keeps a key that another entry changes. */
  ghost predicate KeptAndMoved<V>(xs: seq<Intent<V>>) {
    exists i, j :: 0 <= i < |xs| && 0 <= j < |xs| && xs[i].Wants? && !Changes(xs[i]) && Changes(xs[j]) && xs[i].was == xs[j].was
  }

  /** Exactly the changing entries are in the map, each key once. */
  ghost predicate MapOf<V>(rs: Pairs<V>, xs: seq<Intent<V>>) {
    && DistinctKeys(rs)
    && (forall i :: 0 <= i < |xs| && Changes(xs[i]) ==> (xs[i].was, xs[i].now) in rs)
    && forall k :: 0 <= k < |rs| ==> exists i :: 0 <= i < |xs| && Changes(xs[i]) && rs[k] == (xs[i].was, xs[i].now)
  }

  lemma MapSkips<V>(rs: Pairs<V>, xs: seq<Intent<V>>, x: Intent<V>)
    requires MapOf(rs, xs) && (Changes(x) ==> (x.was, x.now) in rs)
    ensures MapOf(rs, xs + [x])
  {
    var ys := xs + [x];
    assert forall i :: 0 <= i < |xs| ==> ys[i] == xs[i];
    forall k | 0 <= k < |rs| ensures exists i :: 0 <= i < |ys| && Changes(ys[i]) && rs[k] == (ys[i].was, ys[i].now) {
      var i :| 0 <= i < |xs| && Changes(xs[i]) && rs[k] == (xs[i].was, xs[i].now);
      assert ys[i] == xs[i];
    }
  }

  lemma MapGrows<V>(rs: Pairs<V>, xs: seq<Intent<V>>, x: Intent<V>)
    requires MapOf(rs, xs) && Changes(x) && !HasKey(rs, x.was)
    ensures MapOf(rs + [(x.was, x.now)], xs + [x])
  {
    var ys, qs := xs + [x], rs + [(x.was, x.now)];
    assert forall i :: 0 <= i < |xs| ==> ys[i] == xs[i];
    forall k | 0 <= k < |qs| ensures exists i :: 0 <= i < |ys| && Changes(ys[i]) && qs[k] == (ys[i].was, ys[i].now) {
      if k < |rs| {
        var i :| 0 <= i < |xs| && Changes(xs[i]) && rs[k] == (xs[i].was, xs[i].now);
        assert ys[i] == xs[i];
      } else {
        assert ys[|xs|] == x;
      }
    }
  }

  /** A key already in the map with another value is a clash, whatever follows. */
  lemma MapRefuses<V>(rs: Pairs<V>, xs: seq<Intent<V>>, n: nat, k: nat)
    requires n < |xs| && MapOf(rs, xs[..n]) && Changes(xs[n]) && k < |rs| && rs[k].0 == xs[n].was && rs[k].1 != xs[n].now
    ensures MoveClash(xs)
  {
    var i :| 0 <= i < n && Changes(xs[..n][i]) && rs[k] == (xs[..n][i].was, xs[..n][i].now);
    assert xs[..n][i] == xs[i];
  }

  lemma MapNoClash<V>(rs: Pairs<V>, xs: seq<Intent<V>>)
    requires MapOf(rs, xs)
    ensures !MoveClash(xs)
  {
    forall i, j | 0 <= i < |xs| && 0 <= j < |xs| && Changes(xs[i]) && Changes(xs[j]) && xs[i].was == xs[j].was
      ensures xs[i].now == xs[j].now
    {
      var p :| 0 <= p < |rs| && rs[p] == (xs[i].was, xs[i].now);
      var q :| 0 <= q < |rs| && rs[q] == (xs[j].was, xs[j].now);
    }
  }

  // ------------------------------------------------------------------ the two maps

  /** One step of the pad and macro loops: a resolved change enters the map unless its
      key is there already, with the same value; a different one is refused. */
  method AddChange(rs: Pairs<string>, x: Intent<string>, ghost xs: seq<Intent<string>>, ghost n: nat)
    returns (ok: bool, more: Pairs<string>)
    requires n < |xs| && xs[n] == x && NoFailure(xs[..n]) && MapOf(rs, xs[..n])
    ensures ok ==> NoFailure(xs[..n + 1]) && MapOf(more, xs[..n + 1])
    ensures !ok ==> x.Fails? || MoveClash(xs)
  {
    assert xs[..n + 1] == xs[..n] + [x];
    ok, more := true, rs;
    if x.Fails? {
      ok := false;
    } else if Changes(x) {
      if HasKey(rs, x.was) {
        ghost var k :| 0 <= k < |rs| && rs[k].0 == x.was;
        LookupAt(rs, k, "");
        if Lookup(rs, x.was, "") != x.now {
          MapRefuses(rs, xs, n, k);
          ok := false;
        } else {
          assert rs[k] == (x.was, x.now);
          MapSkips(rs, xs[..n], x);
        }
      } else {
        MapGrows(rs, xs[..n], x);
        more := rs + [(x.was, x.now)];
      }
    } else {
      MapSkips(rs, xs[..n], x);
    }
  }

  method DerivePinRenames(items: seq<Item>, b: Boards) returns (r: Option<Pairs<string>>)
    ensures r.Some? <==> NoFailure(PadIntents(items, b)) && !MoveClash(PadIntents(items, b))
    ensures r.Some? ==> MapOf(r.value, PadIntents(items, b))
  {
    var rs: Pairs<string> := [];
    ghost var xs := PadIntents(items, b);
    for n := 0 to |items|
      invariant NoFailure(xs[..n]) && MapOf(rs, xs[..n])
    {
      var ok;
      ok, rs := AddChange(rs, PadIntent(items[n], b), xs, n);
      if !ok { return None; }
    }
    assert xs[..|items|] == xs;
    MapNoClash(rs, xs);
    r := Some(rs);
  }

  /** The `resolved` table: what every entry seen so far wanted, kept ones included. */
  ghost predicate Resolved(table: map<string, Option<string>>, xs: seq<Intent<Option<string>>>) {
    && (forall i :: 0 <= i < |xs| && xs[i].Wants? ==> xs[i].was in table && table[xs[i].was] == xs[i].now)
    && forall k :: k in table ==> exists i :: 0 <= i < |xs| && xs[i].Wants? && xs[i].was == k
  }

  lemma ResolvedStep(table: map<string, Option<string>>, xs: seq<Intent<Option<string>>>, x: Intent<Option<string>>)
    requires Resolved(table, xs) && x.Wants? && (x.was in table ==> table[x.was] == x.now)
    ensures Resolved(table[x.was := x.now], xs + [x])
  {
    var ys, next := xs + [x], table[x.was := x.now];
    assert forall i :: 0 <= i < |xs| ==> ys[i] == xs[i];
    assert ys[|xs|] == x;
    forall k | k in next ensures exists i :: 0 <= i < |ys| && ys[i].Wants? && ys[i].was == k {
      if k in table {
        var i :| 0 <= i < |xs| && xs[i].Wants? && xs[i].was == k;
        assert ys[i] == xs[i];
      }
    }
  }

  lemma ResolvedRefuses(table: map<string, Option<string>>, xs: seq<Intent<Option<string>>>, n: nat)
    requires n < |xs| && Resolved(table, xs[..n]) && xs[n].Wants? && xs[n].was in table && table[xs[n].was] != xs[n].now
    ensures Clash(xs)
  {
    var i :| 0 <= i < n && xs[..n][i].Wants? && xs[..n][i].was == xs[n].was;
    assert xs[..n][i] == xs[i];
  }

  method DerivePinDocRenames(items: seq<Item>, b: Boards) returns (r: Option<Pairs<Option<string>>>)
    ensures r.Some? <==> NoFailure(DocIntents(items, b)) && !Clash(DocIntents(items, b))
    ensures r.Some? ==> MapOf(r.value, DocIntents(items, b))
  {
    var rs: Pairs<Option<string>> := [];
    var resolved: map<string, Option<string>> := map[];
    ghost var xs := DocIntents(items, b);
    for n := 0 to |items|
      invariant DocState(rs, resolved, xs[..n])
    {
      assert xs[..n + 1] == xs[..n] + [xs[n]];
      var x := DocIntent(items[n], b);
      if x.Fails? { return None; }
      if x.Silent? {
        DocQuiet(rs, resolved, xs[..n], x);
      } else {
        if x.was in resolved && resolved[x.was] != x.now {
          ResolvedRefuses(resolved, xs, n);
          return None;
        }
        DocStep(rs, resolved, xs[..n], x);
        resolved := resolved[x.was := x.now];
        if x.now != Some(x.was) && !HasKey(rs, x.was) { rs := rs + [(x.was, x.now)]; }
      }
    }
    assert xs[..|items|] == xs;
    ResolvedNoClash(resolved, xs);
    r := Some(rs);
  }

  ghost predicate DocState(rs: Pairs<Option<string>>, table: map<string, Option<string>>, xs: seq<Intent<Option<string>>>) {
    NoFailure(xs) && MapOf(rs, xs) && Resolved(table, xs)
  }

  lemma DocQuiet(rs: Pairs<Option<string>>, table: map<string, Option<string>>, xs: seq<Intent<Option<string>>>, x: Intent<Option<string>>)
    requires DocState(rs, table, xs) && x.Silent?
    ensures DocState(rs, table, xs + [x])
  {
    MapSkips(rs, xs, x);
    ResolvedSkips(table, xs, x);
  }

  lemma ResolvedSkips(table: map<string, Option<string>>, xs: seq<Intent<Option<string>>>, x: Intent<Option<string>>)
    requires Resolved(table, xs) && !x.Wants?
    ensures Resolved(table, xs + [x])
  {
    var ys := xs + [x];
    assert forall i :: 0 <= i < |xs| ==> ys[i] == xs[i];
    forall k | k in table ensures exists i :: 0 <= i < |ys| && ys[i].Wants? && ys[i].was == k {
      var i :| 0 <= i < |xs| && xs[i].Wants? && xs[i].was == k;
      assert ys[i] == xs[i];
    }
  }

  lemma ResolvedNoClash(table: map<string, Option<string>>, xs: seq<Intent<Option<string>>>)
    requires Resolved(table, xs)
    ensures !Clash(xs)
  {
  }

  lemma DocStep(rs: Pairs<Option<string>>, table: map<string, Option<string>>, xs: seq<Intent<Option<string>>>, x: Intent<Option<string>>)
    requires DocState(rs, table, xs) && x.Wants? && x.same == Some(x.was)
    requires x.was in table ==> table[x.was] == x.now
    ensures DocState(if x.now != Some(x.was) && !HasKey(rs, x.was) then rs + [(x.was, x.now)] else rs, table[x.was := x.now], xs + [x])
  {
    ResolvedStep(table, xs, x);
    if Changes(x) && !HasKey(rs, x.was) {
      MapGrows(rs, xs, x);
    } else {
      if Changes(x) { DocKeyAgrees(rs, table, xs, x.was); }
      MapSkips(rs, xs, x);
    }
  }

  lemma DocKeyAgrees(rs: Pairs<Option<string>>, table: map<string, Option<string>>, xs: seq<Intent<Option<string>>>, doc: string)
    requires MapOf(rs, xs) && Resolved(table, xs) && HasKey(rs, doc)
    ensures doc in table && (doc, table[doc]) in rs
  {
    var k :| 0 <= k < |rs| && rs[k].0 == doc;
    var i :| 0 <= i < |xs| && Changes(xs[i]) && rs[k] == (xs[i].was, xs[i].now);
  }

  // ---------------------------------------------------------------- what the maps mean

  /** Every entry, looked up in the map, reads what it wants. */
  ghost predicate Faithful<V>(rs: Pairs<V>, xs: seq<Intent<V>>) {
    forall i :: 0 <= i < |xs| && xs[i].Wants? ==> Lookup(rs, xs[i].was, xs[i].same) == xs[i].now
  }

  /** The key fixes the field's present value. */
  ghost predicate KeyFixesSame<V>(xs: seq<Intent<V>>) {
    forall i, j :: 0 <= i < |xs| && 0 <= j < |xs| && xs[i].Wants? && xs[j].Wants? && xs[i].was == xs[j].was ==> xs[i].same == xs[j].same
  }

  lemma MapFaithful<V>(rs: Pairs<V>, xs: seq<Intent<V>>)
    requires MapOf(rs, xs) && KeyFixesSame(xs)
    ensures Faithful(rs, xs) <==> !KeptAndMoved(xs)
  {
    forall i | 0 <= i < |xs| && Changes(xs[i]) ensures HasKey(rs, xs[i].was) && forall d :: Lookup(rs, xs[i].was, d) == xs[i].now {
      var k :| 0 <= k < |rs| && rs[k] == (xs[i].was, xs[i].now);
      forall d ensures Lookup(rs, xs[i].was, d) == xs[i].now { LookupAt(rs, k, d); }
    }
    if !KeptAndMoved(xs) {
      forall i | 0 <= i < |xs| && xs[i].Wants? && !Changes(xs[i]) ensures Lookup(rs, xs[i].was, xs[i].same) == xs[i].now {
        assert !HasKey(rs, xs[i].was);
        LookupNone(rs, xs[i].was, xs[i].same);
      }
    }
  }

  /** The derived pad map gives every entry its own target exactly when no pad is kept
      by one entry and moved by another: that case passes the ambiguity check. */
  lemma PadMapFaithful(rs: Pairs<string>, items: seq<Item>, b: Boards)
    requires MapOf(rs, PadIntents(items, b))
    ensures Faithful(rs, PadIntents(items, b)) <==> !KeptAndMoved(PadIntents(items, b))
  {
    MapFaithful(rs, PadIntents(items, b));
  }

  /** The derived doc map, whose check also records kept entries, always does. */
  lemma DocMapFaithful(rs: Pairs<Option<string>>, items: seq<Item>, b: Boards)
    requires MapOf(rs, DocIntents(items, b)) && !Clash(DocIntents(items, b))
    ensures Faithful(rs, DocIntents(items, b))
  {
    KeptIsClash(DocIntents(items, b));
    MapFaithful(rs, DocIntents(items, b));
  }

  lemma KeptIsClash<V>(xs: seq<Intent<V>>)
    requires KeyFixesSame(xs) && !Clash(xs)
    ensures !KeptAndMoved(xs)
  {
  }

  /** One pad, two roles: on the other board one role stays on it, the other moves. */
  lemma KeptAndMovedHappens(p: string, q: string, m: string, n: string)
    requires p != q && m != n
    ensures var b := Boards([Route(Some(m), Some(m), Some(p), None), Route(Some(n), Some(n), Some(p), None)],
                            [Route(Some(m), Some(m), Some(p), None), Route(Some(n), Some(n), Some(q), None)], false);
            var xs := PadIntents([Item(Some(p), Some(m), None), Item(Some(p), Some(n), None)], b);
            NoFailure(xs) && !MoveClash(xs) && KeptAndMoved(xs)
  {
    var r0, r1 := Route(Some(m), Some(m), Some(p), None), Route(Some(n), Some(n), Some(p), None);
    var t1 := Route(Some(n), Some(n), Some(q), None);
    var b := Boards([r0, r1], [r0, t1], false);
    var i0, i1 := Item(Some(p), Some(m), None), Item(Some(p), Some(n), None);
    TwoRoutes(r0, r1, t1, m, n);
    assert PadIntent(i0, b) == Wants(p, p, p);
    assert PadIntent(i1, b) == Wants(p, p, q);
    var xs := PadIntents([i0, i1], b);
    assert xs[0] == Wants(p, p, p) && xs[1] == Wants(p, p, q);
    assert !Changes(xs[0]) && Changes(xs[1]);
  }

  lemma TwoRoutes(r0: Route, r1: Route, t1: Route, m: string, n: string)
    requires m != n && r0.macro == Some(m) == r0.name && r1.macro == Some(n) == r1.name == t1.name
    ensures forall pad :: AliasFor([r0, r1], pad, Some(m)) == Some(m) && AliasFor([r0, r1], pad, Some(n)) == Some(n)
    ensures RouteByAlias([r0, t1], m) == Some(r0) && RouteByAlias([r0, t1], n) == Some(t1)
  {
    assert ByMacro([r0, r1], m) == Some(0);
    assert [r0, r1][1..] == [r1];
    assert ByMacro([r1], n) == Some(0);
    assert ByMacro([r0, r1], n) == Some(1);
    assert [r0, t1][..1] == [r0];
    assert RouteByAlias([r0], m) == Some(r0);
  }

  // ------------------------------------------------------------- one key at a time

  /** Some site still to be renamed at step `j` was put there by an earlier rename. */
  ghost predicate ChainAt(pads: seq<string>, rs: Pairs<string>, j: nat)
    requires j < |rs|
  {
    exists i :: 0 <= i < j && rs[i].1 == rs[j].0 && rs[i].0 in pads
  }

  lemma {:induction false} LookupSource(rs: Pairs<string>, k: string)
    ensures Image(rs, k) == k || exists i :: 0 <= i < |rs| && rs[i] == (k, Image(rs, k))
    decreases |rs|
  {
    if HasKey(rs, k) {
      if rs[0].0 != k {
        TailKey(rs, k);
        LookupSource(rs[1..], k);
        assert forall i :: 0 <= i < |rs[1..]| ==> rs[1..][i] == rs[i + 1];
      }
    } else {
      LookupNone(rs, k, k);
    }
  }

  /** The occurrence count of step `j` agrees exactly when no earlier rename put its
      key into the file. */
  lemma StepCounts(sites: seq<string>, pads: seq<string>, rs: Pairs<string>, j: nat)
    requires j < |rs| && DistinctKeys(rs) && Midway(sites, pads, rs[..j])
    ensures CountOf(sites, rs[j].0) == CountOf(pads, rs[j].0) <==> !ChainAt(pads, rs, j)
  {
    var key := rs[j].0;
    var done := rs[..j];
    assert forall i :: 0 <= i < j ==> done[i] == rs[i];
    assert !HasKey(done, key);
    LookupNone(done, key, key);
    CountWhere(sites, pads, key);
    if ChainAt(pads, rs, j) {
      var i :| 0 <= i < j && rs[i].1 == key && rs[i].0 in pads;
      var x :| 0 <= x < |pads| && pads[x] == rs[i].0;
      assert DistinctKeys(done);
      LookupAt(done, i, pads[x]);
      assert done[i].0 == pads[x];
      assert sites[x] == key && pads[x] != key;
    } else {
      forall x | 0 <= x < |pads| && sites[x] == key ensures pads[x] == key {
        LookupSource(done, pads[x]);
      }
    }
  }

  lemma {:induction false} Steps(sites: seq<string>, pads: seq<string>, rs: Pairs<string>, j: nat)
    requires j <= |rs| && DistinctKeys(rs) && Midway(sites, pads, rs[..j])
    ensures Substitute(sites, rs[j..], pads).Some? <==> forall n :: j <= n < |rs| ==> !ChainAt(pads, rs, n)
    ensures Substitute(sites, rs[j..], pads).Some? ==> Midway(Substitute(sites, rs[j..], pads).value, pads, rs)
    decreases |rs| - j
  {
    if j < |rs| {
      StepCounts(sites, pads, rs, j);
      var key, now := rs[j].0, rs[j].1;
      assert rs[j..][0] == rs[j] && rs[j..][1..] == rs[j + 1..];
      if !ChainAt(pads, rs, j) {
        StepMidway(sites, pads, rs, j);
        Steps(Replace(sites, key, now), pads, rs, j + 1);
      }
    } else {
      assert rs[..j] == rs;
    }
  }

  lemma StepMidway(sites: seq<string>, pads: seq<string>, rs: Pairs<string>, j: nat)
    requires j < |rs| && DistinctKeys(rs) && Midway(sites, pads, rs[..j]) && !ChainAt(pads, rs, j)
    ensures Midway(Replace(sites, rs[j].0, rs[j].1), pads, rs[..j + 1])
  {
    var key := rs[j].0;
    var done := rs[..j];
    assert forall i :: 0 <= i < j ==> done[i] == rs[i];
    assert !HasKey(done, key);
    assert rs[..j + 1] == done + [rs[j]];
    forall x | 0 <= x < |pads| ensures Replace(sites, key, rs[j].1)[x] == Image(rs[..j + 1], pads[x]) {
      LookupSnoc(done, rs[j], pads[x], pads[x]);
      LookupNone(done, key, key);
      LookupSource(done, pads[x]);
    }
  }

  /** Renaming one key at a time is renaming all at once, or is refused: it is refused
      exactly when a rename of an occurring pad lands on the key of a later one. */
  lemma SequentialIsSimultaneous(pads: seq<string>, rs: Pairs<string>)
    requires DistinctKeys(rs)
    ensures Substitute(pads, rs, pads).Some? <==> !ForwardChain(pads, rs)
    ensures Substitute(pads, rs, pads).Some? ==> Substitute(pads, rs, pads).value == Simultaneous(pads, rs)
  {
    assert rs[..0] == [] && rs[0..] == rs;
    Steps(pads, pads, rs, 0);
    assert ForwardChain(pads, rs) <==> exists n :: 0 <= n < |rs| && ChainAt(pads, rs, n) by {
      if ForwardChain(pads, rs) {
        var i, n :| 0 <= i < n < |rs| && rs[i].1 == rs[n].0 && rs[i].0 in pads;
        assert ChainAt(pads, rs, n);
      }
    }
  }

  function PadsOf(items: seq<Item>): (r: seq<string>)
  {
    if items == [] then [] else (if items[0].pad.Some? then [items[0].pad.value] else []) + PadsOf(items[1..])
  }

  /** What every entry with a pad should read afterwards: its own target pad, or its own
      pad when nothing resolves. */
  function Wanted(items: seq<Item>, b: Boards): seq<string> {
    if items == [] then []
    else (if items[0].pad.Some? then [var x := PadIntent(items[0], b); if x.Wants? then x.now else items[0].pad.value] else [])
         + Wanted(items[1..], b)
  }

  lemma {:induction false} WantedIsImage(items: seq<Item>, b: Boards, rs: Pairs<string>)
    requires forall i :: 0 <= i < |items| && items[i].pad.Some? ==>
               Image(rs, items[i].pad.value) == var x := PadIntent(items[i], b); if x.Wants? then x.now else items[i].pad.value
    ensures Simultaneous(PadsOf(items), rs) == Wanted(items, b)
  {
    if items != [] {
      var rest := items[1..];
      assert forall i :: 0 <= i < |rest| ==> rest[i] == items[i + 1];
      WantedIsImage(rest, b, rs);
      if items[0].pad.Some? {
        assert PadsOf(items) == [items[0].pad.value] + PadsOf(rest);
        assert PadsOf(items)[1..] == PadsOf(rest);
      } else {
        assert PadsOf(items) == PadsOf(rest);
      }
    }
  }

  /** End to end: when the map is derived, no pad is both kept and moved, and the
      sequential rewrite is accepted, every entry reads its own target pad. */
  lemma PinsRetargeted(items: seq<Item>, b: Boards, rs: Pairs<string>)
    requires !b.same && NoFailure(PadIntents(items, b)) && MapOf(rs, PadIntents(items, b)) && !KeptAndMoved(PadIntents(items, b))
    requires Substitute(PadsOf(items), rs, PadsOf(items)).Some?
    ensures Substitute(PadsOf(items), rs, PadsOf(items)).value == Wanted(items, b)
  {
    SequentialIsSimultaneous(PadsOf(items), rs);
    var xs := PadIntents(items, b);
    PadMapFaithful(rs, items, b);
    forall i | 0 <= i < |items| && items[i].pad.Some?
      ensures Image(rs, items[i].pad.value) == var x := PadIntent(items[i], b); if x.Wants? then x.now else items[i].pad.value
    {
      assert !xs[i].Fails? && xs[i] == PadIntent(items[i], b);
    }
    WantedIsImage(items, b, rs);
  }
}
