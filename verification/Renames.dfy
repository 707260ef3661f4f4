/** Scaffold renaming: core ids and pads re-derived for another SoM as finite maps,
    then applied one after another to the board file. */
module Renames {
  import opened PyText

  /** A Python dictionary with its insertion order. */
  type Pairs<V> = seq<(string, V)>

  predicate HasKey<V>(rs: Pairs<V>, k: string) { exists i :: 0 <= i < |rs| && rs[i].0 == k }

  /** `renames.get(k, otherwise)`. */
  function Lookup<V>(rs: Pairs<V>, k: string, otherwise: V): V {
    if rs == [] then otherwise else if rs[0].0 == k then rs[0].1 else Lookup(rs[1..], k, otherwise)
  }

  /** What renaming makes of `k`: itself when the map has no such key. */
  function Image(rs: Pairs<string>, k: string): string { Lookup(rs, k, k) }

  ghost predicate DistinctKeys<V>(rs: Pairs<V>) { forall i, j :: 0 <= i < j < |rs| ==> rs[i].0 != rs[j].0 }

  lemma {:induction false} LookupAt<V>(rs: Pairs<V>, i: nat, d: V)
    requires i < |rs| && DistinctKeys(rs)
    ensures Lookup(rs, rs[i].0, d) == rs[i].1
  {
    if i > 0 {
      assert DistinctKeys(rs[1..]);
      LookupAt(rs[1..], i - 1, d);
    }
  }

  lemma {:induction false} LookupNone<V>(rs: Pairs<V>, k: string, d: V)
    requires !HasKey(rs, k)
    ensures Lookup(rs, k, d) == d
  {
    if rs != [] {
      TailKey(rs, k);
      LookupNone(rs[1..], k, d);
    }
  }

  lemma TailKey<V>(rs: Pairs<V>, k: string)
    requires rs != []
    ensures HasKey(rs, k) <==> rs[0].0 == k || HasKey(rs[1..], k)
  {
    var rest := rs[1..];
    assert forall i :: 0 <= i < |rest| ==> rest[i] == rs[i + 1];
    if HasKey(rs, k) && rs[0].0 != k {
      var i :| 0 <= i < |rs| && rs[i].0 == k;
      assert rest[i - 1].0 == k;
    }
  }

  // ------------------------------------------------------------------ core ids

  datatype Core = Core(id: string, board: bool)

  datatype CoreResult = Passthrough | Derived(renames: Pairs<string>) | NoCore(id: string) | EmptyId

  predicate InTopology(topo: seq<Core>, id: string) { exists i :: 0 <= i < |topo| && topo[i].id == id }

  predicate Taken(rs: Pairs<string>, id: string) { exists i :: 0 <= i < |rs| && rs[i].1 == id }

  /** A core that may stand in for the stale id `stale`. */
  predicate Candidate(c: Core, stale: string, ids: seq<string>, done: Pairs<string>)
    requires stale != []
  {
    && c.id != [] && c.id[0] == stale[0] && c.id !in ids && !Taken(done, c.id)
    && (stale[0] == 'm' ==> c.board)
  }

  /** The first candidate in declaration order. */
  function FirstCandidate(topo: seq<Core>, stale: string, ids: seq<string>, done: Pairs<string>): (i: Option<nat>)
    requires stale != []
    ensures i.Some? ==> i.value < |topo| && Candidate(topo[i.value], stale, ids, done)
    ensures i.Some? ==> forall j :: 0 <= j < i.value ==> !Candidate(topo[j], stale, ids, done)
    ensures i.None? ==> forall j :: 0 <= j < |topo| ==> !Candidate(topo[j], stale, ids, done)
    decreases topo
  {
    if topo == [] then None
    else if Candidate(topo[0], stale, ids, done) then Some(0)
    else
      var r := FirstCandidate(topo[1..], stale, ids, done);
      if r.Some? then Some(r.value + 1) else None
  }

  function Stale(ids: seq<string>, topo: seq<Core>): seq<string> {
    if ids == [] then []
    else (if InTopology(topo, ids[0]) then [] else [ids[0]]) + Stale(ids[1..], topo)
  }

  /** Each rename takes the first candidate left by the renames before it. */
  ghost predicate CoreRenames(rs: Pairs<string>, stale: seq<string>, ids: seq<string>, topo: seq<Core>) {
    && |rs| <= |stale|
    && forall i :: 0 <= i < |rs| ==>
         && rs[i].0 == stale[i] != []
         && var c := FirstCandidate(topo, stale[i], ids, rs[..i]);
            c.Some? && topo[c.value].id == rs[i].1
  }

  /** The stale ids before `id` have their renames, and `id` is the next one. */
  ghost predicate StopsAt(done: Pairs<string>, id: string, ids: seq<string>, topo: seq<Core>) {
    CoreRenames(done, Stale(ids, topo), ids, topo) && |done| < |Stale(ids, topo)| && Stale(ids, topo)[|done|] == id
  }

  method DeriveCoreRenames(ids: seq<string>, topo: seq<Core>) returns (r: CoreResult)
    requires Distinct(ids)
    ensures r.Passthrough? <==> Stale(ids, topo) == []
    ensures r.Derived? ==> CoreRenames(r.renames, Stale(ids, topo), ids, topo) && |r.renames| == |Stale(ids, topo)|
    ensures r.NoCore? ==> r.id != [] && exists done :: StopsAt(done, r.id, ids, topo) && FirstCandidate(topo, r.id, ids, done).None?
    ensures r.EmptyId? ==> exists done :: StopsAt(done, "", ids, topo)
  {
    var stale := Stale(ids, topo);
    StaleFacts(ids, topo);
    if stale == [] { return Passthrough; }
    var rs: Pairs<string> := [];
    for i := 0 to |stale|
      invariant |rs| == i && CoreRenames(rs, stale, ids, topo)
    {
      if stale[i] == [] {
        assert StopsAt(rs, "", ids, topo);
        return EmptyId;
      }
      var c := FirstCandidate(topo, stale[i], ids, rs);
      assert StopsAt(rs, stale[i], ids, topo);
      if c.None? { return NoCore(stale[i]); }
      ghost var before := rs;
      rs := rs + [(stale[i], topo[c.value].id)];
      assert forall k :: 0 <= k <= i ==> rs[..k] == before[..k];
      assert before[..i] == before;
    }
    r := Derived(rs);
  }

  lemma {:induction false} StaleFacts(ids: seq<string>, topo: seq<Core>)
    ensures forall s :: s in Stale(ids, topo) <==> s in ids && !InTopology(topo, s)
    ensures Distinct(ids) ==> Distinct(Stale(ids, topo))
  {
    if ids != [] {
      StaleFacts(ids[1..], topo);
      assert ids == [ids[0]] + ids[1..];
      var rest := Stale(ids[1..], topo);
      if Distinct(ids) {
        assert Distinct(ids[1..]) by { assert forall i :: 0 <= i < |ids[1..]| ==> ids[1..][i] == ids[i + 1]; }
      }
    }
  }

  /** Derived core renames rename every stale id, injectively, to ids of the target
      topology of the same class that the file does not use, an m-class one only to a
      core with a board target; so a renamed id is never itself renamed. */
  lemma CoreRenamesSound(rs: Pairs<string>, ids: seq<string>, topo: seq<Core>)
    requires Distinct(ids) && CoreRenames(rs, Stale(ids, topo), ids, topo) && |rs| == |Stale(ids, topo)|
    ensures forall id :: HasKey(rs, id) <==> id in ids && !InTopology(topo, id)
    ensures DistinctKeys(rs)
    ensures forall i, j :: 0 <= i < j < |rs| ==> rs[i].1 != rs[j].1
    ensures forall i :: 0 <= i < |rs| ==> InTopology(topo, rs[i].1) && rs[i].1 !in ids && rs[i].0 != [] && rs[i].1 != [] && rs[i].1[0] == rs[i].0[0]
    ensures forall i :: 0 <= i < |rs| && rs[i].0[0] == 'm' ==> exists k :: 0 <= k < |topo| && topo[k].id == rs[i].1 && topo[k].board
    ensures forall i, j :: 0 <= i < |rs| && 0 <= j < |rs| ==> rs[i].1 != rs[j].0
  {
    var stale := Stale(ids, topo);
    StaleFacts(ids, topo);
    forall id ensures HasKey(rs, id) <==> id in stale {
      if id in stale {
        var i :| 0 <= i < |stale| && stale[i] == id;
        assert rs[i].0 == id;
      }
    }
    forall i | 0 <= i < |rs|
      ensures InTopology(topo, rs[i].1) && rs[i].1 !in ids && rs[i].0 in ids && Candidate(topo[FirstCandidate(topo, stale[i], ids, rs[..i]).value], stale[i], ids, rs[..i])
    {
      var c := FirstCandidate(topo, stale[i], ids, rs[..i]).value;
      assert topo[c].id == rs[i].1;
      assert stale[i] in stale;
    }
    forall i, j | 0 <= i < j < |rs| ensures rs[i].1 != rs[j].1 {
      assert rs[..j][i].1 == rs[i].1;
      assert !Taken(rs[..j], rs[j].1);
    }
  }

  // --------------------------------------------------------------- sequential maps

  function Replace(sites: seq<string>, was: string, now: string): (out: seq<string>)
    ensures |out| == |sites|
    ensures forall i :: 0 <= i < |sites| ==> out[i] == if sites[i] == was then now else sites[i]
  {
    if sites == [] then [] else [if sites[0] == was then now else sites[0]] + Replace(sites[1..], was, now)
  }

  function CountOf(sites: seq<string>, s: string): nat {
    if sites == [] then 0 else (if sites[0] == s then 1 else 0) + CountOf(sites[1..], s)
  }

  /** One rename after another, each checked to rewrite exactly as many sites as the
      file's parsed pins name that pad. */
  function Substitute(sites: seq<string>, rs: Pairs<string>, pads: seq<string>): Option<seq<string>>
    decreases rs
  {
    if rs == [] then Some(sites)
    else if CountOf(sites, rs[0].0) != CountOf(pads, rs[0].0) then None
    else Substitute(Replace(sites, rs[0].0, rs[0].1), rs[1..], pads)
  }

  method SubstitutePins(sites: seq<string>, rs: Pairs<string>, pads: seq<string>) returns (r: Option<seq<string>>)
    ensures r == Substitute(sites, rs, pads)
  {
    var text := sites;
    for i := 0 to |rs|
      invariant Substitute(text, rs[i..], pads) == Substitute(sites, rs, pads)
    {
      assert rs[i..][0] == rs[i] && rs[i..][1..] == rs[i + 1..];
      var expected := CountOf(pads, rs[i].0);
      if CountOf(text, rs[i].0) != expected { return None; }
      text := Replace(text, rs[i].0, rs[i].1);
    }
    r := Some(text);
  }

  /** Every site replaced by its image, all at once. */
  function Simultaneous(sites: seq<string>, rs: Pairs<string>): (out: seq<string>)
    ensures |out| == |sites| && forall i :: 0 <= i < |sites| ==> out[i] == Image(rs, sites[i])
  {
    if sites == [] then [] else [Image(rs, sites[0])] + Simultaneous(sites[1..], rs)
  }

  /** An earlier rename of an occurring pad lands on a later rename's key. */
  ghost predicate ForwardChain(sites: seq<string>, rs: Pairs<string>) {
    exists i, j :: 0 <= i < j < |rs| && rs[i].1 == rs[j].0 && rs[i].0 in sites
  }

  /** Each site holds the image of its original pad under the renames already done. */
  ghost predicate Midway(sites: seq<string>, pads: seq<string>, done: Pairs<string>) {
    |sites| == |pads| && forall i :: 0 <= i < |pads| ==> sites[i] == Image(done, pads[i])
  }

  lemma {:induction false} CountWhere(sites: seq<string>, pads: seq<string>, k: string)
    requires |sites| == |pads| && forall i :: 0 <= i < |pads| ==> pads[i] == k ==> sites[i] == k
    ensures CountOf(sites, k) >= CountOf(pads, k)
    ensures CountOf(sites, k) == CountOf(pads, k) <==> forall i :: 0 <= i < |pads| ==> sites[i] == k ==> pads[i] == k
  {
    if pads != [] {
      var s1, p1 := sites[1..], pads[1..];
      assert forall i :: 0 <= i < |p1| ==> s1[i] == sites[i + 1] && p1[i] == pads[i + 1];
      CountWhere(s1, p1, k);
      assert (forall i :: 0 <= i < |p1| ==> s1[i] == k ==> p1[i] == k) ==>
             (forall i :: 1 <= i < |pads| ==> sites[i] == k ==> pads[i] == k) by {
        assert forall i :: 1 <= i < |pads| ==> sites[i] == s1[i - 1] && pads[i] == p1[i - 1];
      }
    }
  }

  lemma {:induction false} LookupSnoc<V>(done: Pairs<V>, x: (string, V), k: string, d: V)
    requires !HasKey(done, x.0)
    ensures Lookup(done + [x], k, d) == if k == x.0 then x.1 else Lookup(done, k, d)
  {
    if done == [] {
      assert done + [x] == [x] && [x][1..] == [];
    } else {
      assert (done + [x])[0] == done[0] && (done + [x])[1..] == done[1..] + [x];
      TailKey(done, x.0);
      LookupSnoc(done[1..], x, k, d);
    }
  }
}
