/** Which core, and which route, a scaffold's names are re-derived to, said of the
    topology and the two route lists themselves. */
module RenameTargets {
  import opened PyText
  import opened Renames
  import opened PinMaps
  import opened PinMacros

  // ------------------------------------------------------------------------ cores

  /** The topology core `k` may stand in for `stale`: same class letter, unused by the file,
      given to no earlier rename, and with a board target where the class is `m`. */
  ghost predicate Usable(topo: seq<Core>, k: int, stale: string, ids: seq<string>, rs: Pairs<string>, n: nat) {
    && 0 <= k < |topo| && n <= |rs|
    && stale != [] && topo[k].id != [] && topo[k].id[0] == stale[0]
    && topo[k].id !in ids
    && (forall i :: 0 <= i < n ==> rs[i].1 != topo[k].id)
    && (stale[0] == 'm' ==> topo[k].board)
  }

  lemma CandidateUsable(topo: seq<Core>, k: nat, stale: string, ids: seq<string>, rs: Pairs<string>, n: nat)
    requires k < |topo| && n <= |rs| && stale != []
    ensures Candidate(topo[k], stale, ids, rs[..n]) <==> Usable(topo, k, stale, ids, rs, n)
  {
    if Taken(rs[..n], topo[k].id) {
      var i :| 0 <= i < n && rs[..n][i].1 == topo[k].id;
      assert rs[i].1 == topo[k].id;
    } else {
      forall i | 0 <= i < n ensures rs[i].1 != topo[k].id { assert rs[..n][i] == rs[i]; }
    }
  }

  /** `k` is free and no core declared before it is. */
  ghost predicate FirstUsable(topo: seq<Core>, k: int, stale: string, ids: seq<string>, rs: Pairs<string>, n: nat) {
    Usable(topo, k, stale, ids, rs, n) && forall j :: 0 <= j < k ==> !Usable(topo, j, stale, ids, rs, n)
  }

  lemma FirstExact(topo: seq<Core>, k: int, stale: string, ids: seq<string>, rs: Pairs<string>, n: nat)
    requires n <= |rs| && stale != []
    ensures (k >= 0 && FirstCandidate(topo, stale, ids, rs[..n]) == Some(k)) <==> FirstUsable(topo, k, stale, ids, rs, n)
    ensures FirstCandidate(topo, stale, ids, rs[..n]).None? <==> forall j :: 0 <= j < |topo| ==> !Usable(topo, j, stale, ids, rs, n)
  {
    forall j | 0 <= j < |topo| ensures Candidate(topo[j], stale, ids, rs[..n]) <==> Usable(topo, j, stale, ids, rs, n) {
      CandidateUsable(topo, j, stale, ids, rs, n);
    }
  }

  ghost predicate Gets(topo: seq<Core>, stale: string, now: string, ids: seq<string>, rs: Pairs<string>, n: nat) {
    exists k :: FirstUsable(topo, k, stale, ids, rs, n) && topo[k].id == now
  }

  lemma GetsExact(topo: seq<Core>, stale: string, now: string, ids: seq<string>, rs: Pairs<string>, n: nat)
    requires n <= |rs| && stale != []
    ensures Gets(topo, stale, now, ids, rs, n)
            <==> var c := FirstCandidate(topo, stale, ids, rs[..n]); c.Some? && topo[c.value].id == now
  {
    var c := FirstCandidate(topo, stale, ids, rs[..n]);
    if c.Some? {
      FirstExact(topo, c.value, stale, ids, rs, n);
    }
    if Gets(topo, stale, now, ids, rs, n) {
      var k :| FirstUsable(topo, k, stale, ids, rs, n) && topo[k].id == now;
      FirstExact(topo, k, stale, ids, rs, n);
    }
  }

  /** Every derived core rename, one by one: the n-th gives the n-th id the topology lacks
      to the first core still free for it. */
  lemma CoresExact(rs: Pairs<string>, ids: seq<string>, topo: seq<Core>)
    ensures CoreRenames(rs, Stale(ids, topo), ids, topo)
            <==> |rs| <= |Stale(ids, topo)|
                 && forall n :: 0 <= n < |rs| ==> rs[n].0 == Stale(ids, topo)[n] && Gets(topo, rs[n].0, rs[n].1, ids, rs, n)
  {
    forall n | 0 <= n < |rs| && rs[n].0 != []
      ensures Gets(topo, rs[n].0, rs[n].1, ids, rs, n)
              <==> var c := FirstCandidate(topo, rs[n].0, ids, rs[..n]); c.Some? && topo[c.value].id == rs[n].1
    {
      GetsExact(topo, rs[n].0, rs[n].1, ids, rs, n);
    }
    forall n | 0 <= n < |rs| && rs[n].0 == [] ensures !Gets(topo, rs[n].0, rs[n].1, ids, rs, n) {
    }
  }

  ghost predicate Declares(topo: seq<Core>, id: string) { exists k :: 0 <= k < |topo| && topo[k].id == id }

  /** The stale ids are the ids the topology lacks, in file order. */
  lemma StaleExact(ids: seq<string>, topo: seq<Core>, n: nat)
    requires n <= |ids|
    ensures Stale(ids, topo) == Stale(ids[..n], topo) + Stale(ids[n..], topo)
    ensures n < |ids| ==> Stale(ids[n..n + 1], topo) == if Declares(topo, ids[n]) then [] else [ids[n]]
  {
    assert ids == ids[..n] + ids[n..];
    StaleAppend(ids[..n], ids[n..], topo);
    if n < |ids| {
      assert ids[n..n + 1] == [ids[n]];
      OneStale(ids[n], topo);
    }
  }

  lemma OneStale(id: string, topo: seq<Core>)
    ensures Stale([id], topo) == if Declares(topo, id) then [] else [id]
  {
    assert [id][1..] == [];
  }

  lemma {:induction false} StaleAppend(a: seq<string>, b: seq<string>, topo: seq<Core>)
    ensures Stale(a + b, topo) == Stale(a, topo) + Stale(b, topo)
  {
    if a == [] {
      assert a + b == b;
    } else {
      assert (a + b)[0] == a[0] && (a + b)[1..] == a[1..] + b;
      StaleAppend(a[1..], b, topo);
    }
  }

  // ----------------------------------------------------------------------- routes

  /** The source route that plays an entry's part: the first with its macro, or, for an
      entry without one, the only one on its pad. */
  ghost predicate SourceRole(item: Item, b: Boards, i: int) {
    && 0 <= i < |b.source|
    && if item.macro.Some? then b.source[i].macro == item.macro && forall j :: 0 <= j < i ==> b.source[j].macro != item.macro
       else item.pad.Some? && b.source[i].pad == item.pad && forall j :: 0 <= j < |b.source| && j != i ==> b.source[j].pad != item.pad
  }

  /** The target route an alias names: the last that has it. */
  ghost predicate TargetRole(b: Boards, alias: string, k: int) {
    0 <= k < |b.target| && b.target[k].name == Some(alias) && forall j :: k < j < |b.target| ==> b.target[j].name != Some(alias)
  }

  /** The two routes share an alias. */
  ghost predicate Counterpart(item: Item, b: Boards, i: int, k: int) {
    SourceRole(item, b, i) && b.source[i].name.Some? && TargetRole(b, b.source[i].name.value, k)
  }

  ghost predicate LeadsTo(item: Item, b: Boards, r: Route) {
    exists i, k :: Counterpart(item, b, i, k) && b.target[k] == r
  }

  /** Which entries are left alone: those of one board, and those without a pad. */
  ghost predicate Left(item: Item, b: Boards) { b.same || item.pad.None? }

  lemma RoleUnique(item: Item, b: Boards, i: int, j: int)
    requires SourceRole(item, b, i) && SourceRole(item, b, j)
    ensures i == j
  {
  }

  ghost predicate NamesAlias(item: Item, b: Boards, alias: string) {
    exists i :: SourceRole(item, b, i) && b.source[i].name == Some(alias)
  }

  lemma AliasExact(item: Item, b: Boards, alias: string)
    requires item.pad.Some?
    ensures AliasFor(b.source, item.pad.value, item.macro) == Some(alias) <==> NamesAlias(item, b, alias)
  {
    if item.macro.Some? {
      AliasByMacro(item, b, alias);
    } else {
      AliasByPad(item, b, alias);
    }
  }

  lemma AliasByMacro(item: Item, b: Boards, alias: string)
    requires item.pad.Some? && item.macro.Some?
    ensures AliasFor(b.source, item.pad.value, item.macro) == Some(alias) <==> NamesAlias(item, b, alias)
  {
    var c := ByMacro(b.source, item.macro.value);
    if c.Some? {
      assert SourceRole(item, b, c.value);
      if NamesAlias(item, b, alias) {
        var i :| SourceRole(item, b, i) && b.source[i].name == Some(alias);
        RoleUnique(item, b, i, c.value);
      }
    }
  }

  lemma AliasByPad(item: Item, b: Boards, alias: string)
    requires item.pad.Some? && item.macro.None?
    ensures AliasFor(b.source, item.pad.value, item.macro) == Some(alias) <==> NamesAlias(item, b, alias)
  {
    var pad := item.pad.value;
    WithPadNone(b.source, pad);
    if NamesAlias(item, b, alias) {
      var i :| SourceRole(item, b, i) && b.source[i].name == Some(alias);
      WithPadUnique(b.source, pad, i);
    }
    if |WithPad(b.source, pad)| == 1 {
      var i :| 0 <= i < |b.source| && b.source[i].pad == Some(pad);
      WithPadUnique(b.source, pad, i);
      assert SourceRole(item, b, i);
    }
  }

  ghost predicate Reaches(b: Boards, alias: string, r: Route) {
    exists k :: TargetRole(b, alias, k) && b.target[k] == r
  }

  ghost predicate LastNamed(routes: seq<Route>, alias: string, k: int) {
    0 <= k < |routes| && routes[k].name == Some(alias) && forall j :: k < j < |routes| ==> routes[j].name != Some(alias)
  }

  lemma {:induction false} LastRoute(routes: seq<Route>, alias: string, k: int)
    requires LastNamed(routes, alias, k)
    ensures RouteByAlias(routes, alias) == Some(routes[k])
    decreases |routes|
  {
    var m := |routes| - 1;
    if k < m {
      assert LastNamed(routes[..m], alias, k);
      LastRoute(routes[..m], alias, k);
    }
  }

  lemma {:induction false} FindsLast(routes: seq<Route>, alias: string) returns (n: nat)
    requires RouteByAlias(routes, alias).Some?
    ensures LastNamed(routes, alias, n) && RouteByAlias(routes, alias) == Some(routes[n])
    decreases |routes|
  {
    var m := |routes| - 1;
    if routes[m].name == Some(alias) { return m; }
    n := FindsLast(routes[..m], alias);
  }

  lemma ReachesExact(b: Boards, alias: string, r: Route)
    ensures RouteByAlias(b.target, alias) == Some(r) <==> Reaches(b, alias, r)
  {
    if Reaches(b, alias, r) {
      var k :| TargetRole(b, alias, k) && b.target[k] == r;
      assert LastNamed(b.target, alias, k);
      LastRoute(b.target, alias, k);
    }
    if RouteByAlias(b.target, alias) == Some(r) {
      var n := FindsLast(b.target, alias);
      assert TargetRole(b, alias, n);
    }
  }

  /** An entry resolves exactly to its counterpart: the last target route with the alias
      of the source route that plays its part. */
  lemma TargetExact(item: Item, b: Boards, r: Route)
    ensures TargetOf(item, b) == Nothing <==> Left(item, b)
    ensures TargetOf(item, b) == To(r) <==> !Left(item, b) && LeadsTo(item, b, r)
  {
    if !Left(item, b) {
      forall alias ensures AliasFor(b.source, item.pad.value, item.macro) == Some(alias) <==> NamesAlias(item, b, alias) {
        AliasExact(item, b, alias);
      }
      forall alias ensures RouteByAlias(b.target, alias) == Some(r) <==> Reaches(b, alias, r) { ReachesExact(b, alias, r); }
      LeadsThroughAlias(item, b, r);
      if TargetOf(item, b) == To(r) {
        var alias := AliasFor(b.source, item.pad.value, item.macro).value;
        assert NamesAlias(item, b, alias) && Reaches(b, alias, r);
      }
    }
  }

  lemma LeadsThroughAlias(item: Item, b: Boards, r: Route)
    ensures LeadsTo(item, b, r) <==> exists alias :: NamesAlias(item, b, alias) && Reaches(b, alias, r)
  {
    if LeadsTo(item, b, r) {
      var i, k :| Counterpart(item, b, i, k) && b.target[k] == r;
      var alias := b.source[i].name.value;
      assert NamesAlias(item, b, alias) && Reaches(b, alias, r);
    }
    if alias :| NamesAlias(item, b, alias) && Reaches(b, alias, r) {
      var i :| SourceRole(item, b, i) && b.source[i].name == Some(alias);
      var k :| TargetRole(b, alias, k) && b.target[k] == r;
      assert Counterpart(item, b, i, k);
    }
  }

  /** A pad entry wants exactly its counterpart's pad. */
  lemma PadExact(item: Item, b: Boards, was: string, same: string, now: string)
    ensures PadIntent(item, b) == Silent <==> Left(item, b)
    ensures PadIntent(item, b) == Wants(was, same, now)
            <==> !Left(item, b) && item.pad == Some(was) && same == was && exists r :: LeadsTo(item, b, r) && r.pad == Some(now)
  {
    forall r ensures TargetOf(item, b) == To(r) <==> !Left(item, b) && LeadsTo(item, b, r) { TargetExact(item, b, r); }
    TargetExact(item, b, Route(None, None, None, None));
  }

  /** An entry with a macro wants exactly its counterpart's macro. */
  lemma MacroExact(item: Item, b: Boards, was: string, same: string, now: string)
    ensures MacroIntent(item, b) == Silent <==> Left(item, b) || item.macro.None?
    ensures MacroIntent(item, b) == Wants(was, same, now)
            <==> !Left(item, b) && item.macro == Some(was) && same == was && exists r :: LeadsTo(item, b, r) && r.macro == Some(now)
  {
    forall r ensures TargetOf(item, b) == To(r) <==> !Left(item, b) && LeadsTo(item, b, r) { TargetExact(item, b, r); }
    TargetExact(item, b, Route(None, None, None, None));
  }

  /** An entry with a doc wants exactly its counterpart's doc, dropped where that has none. */
  lemma DocExact(item: Item, b: Boards, was: string, same: Option<string>, now: Option<string>)
    ensures DocIntent(item, b) == Silent <==> Left(item, b) || item.doc.None?
    ensures DocIntent(item, b) == Wants(was, same, now)
            <==> !Left(item, b) && item.doc == Some(was) && same == Some(was) && exists r :: LeadsTo(item, b, r) && r.doc == now
  {
    forall r ensures TargetOf(item, b) == To(r) <==> !Left(item, b) && LeadsTo(item, b, r) { TargetExact(item, b, r); }
    TargetExact(item, b, Route(None, None, None, None));
  }
}
