/** The ATOC assembly guard: slot0 windows, address collisions and the core mix of a
    staged config, and what it adds up to with the layout gate. */
module AtocAssembly {
  import opened PyText
  import opened FlashGate

  /** A config value: not an object, an object without `mramAddress`, or one with an
      address that may fail to read as a number. */
  datatype Entry = NotAnObject | Loaded | Staged(addr: Option<int>, cpu: string)

  type Config = seq<(string, Entry)>

  datatype Rejection =
    | NonNumeric(name: string)
    | OutsideMram(name: string)
    | UnknownCpu(name: string)
    | OutsideWindow(name: string)
    | SameAddress(prior: string, name: string, base: int)
    | MixedCores(a32: string, m55: string)

  const A32 := "A32_0"
  const M55 := {"M55_HE", "M55_HP"}

  function Window(cpu: string, windows: seq<(string, int, int)>): (w: Option<(int, int)>)
    ensures w.Some? ==> exists i :: 0 <= i < |windows| && windows[i] == (cpu, w.value.0, w.value.1)
    decreases windows
  {
    if windows == [] then None
    else if windows[0].0 == cpu then
      assert windows[0] == (cpu, windows[0].1, windows[0].2);
      Some((windows[0].1, windows[0].2))
    else
      var w := Window(cpu, windows[1..]);
      assert w.Some? ==> exists i :: 0 <= i < |windows| && windows[i] == (cpu, w.value.0, w.value.1) by {
        if w.Some? {
          var i :| 0 <= i < |windows[1..]| && windows[1..][i] == (cpu, w.value.0, w.value.1);
          assert windows[i + 1] == (cpu, w.value.0, w.value.1);
        }
      }
      w
  }

  /** Why one entry is refused on its own. */
  function EntryFault(name: string, e: Entry): Option<Rejection> {
    if !e.Staged? then None
    else if e.addr.None? then Some(NonNumeric(name))
    else if e.addr.value >= MRAM_END || e.addr.value < MRAM_BASE then Some(OutsideMram(name))
    else
      var w := Window(e.cpu, WINDOWS);
      if w.None? then Some(UnknownCpu(name))
      else if !(w.value.0 <= e.addr.value < w.value.0 + w.value.1) then Some(OutsideWindow(name))
      else None
  }

  ghost predicate Sound(c: Config) {
    forall i :: 0 <= i < |c| ==> EntryFault(c[i].0, c[i].1).None?
  }

  ghost predicate NoCollision(c: Config) {
    forall i, j :: 0 <= i < j < |c| && c[i].1.Staged? && c[j].1.Staged? ==> c[i].1.addr != c[j].1.addr
  }

  ghost predicate Stages(c: Config, cpus: set<string>) {
    exists i :: 0 <= i < |c| && c[i].1.Staged? && c[i].1.cpu in cpus
  }

  /** `staged` lists the staged entries of `c`, found at the indices `at`. */
  ghost predicate Lists(staged: seq<(string, int, string)>, at: seq<nat>, c: Config) {
    && |at| == |staged|
    && (forall k :: 0 <= k < |at| ==> at[k] < |c| && c[at[k]] == (staged[k].0, Staged(Some(staged[k].1), staged[k].2)))
    && (forall k, l :: 0 <= k < l < |at| ==> at[k] < at[l])
    && (forall k :: 0 <= k < |c| && c[k].1.Staged? ==> k in at)
  }

  /** The fault of the first faulty entry. */
  ghost predicate FirstFault(c: Config, why: Rejection) {
    exists i :: 0 <= i < |c| && Sound(c[..i]) && EntryFault(c[i].0, c[i].1) == Some(why)
  }

  lemma FaultAt(c: Config, i: nat)
    requires i < |c| && Sound(c[..i]) && EntryFault(c[i].0, c[i].1).Some?
    ensures !Sound(c) && FirstFault(c, EntryFault(c[i].0, c[i].1).value)
  {
  }

  /** The first staged entry at an address staged before, with the entry that has it. */
  ghost predicate FirstCollision(c: Config, why: Rejection) {
    exists i, j :: 0 <= i < j < |c| && Meet(c, i, j) && NoCollision(c[..j]) && why == SameAddress(c[i].0, c[j].0, c[i].1.addr.value)
  }

  ghost predicate Meet(c: Config, i: nat, j: nat)
    requires i < |c| && j < |c|
  {
    c[i].1.Staged? && c[j].1.Staged? && c[i].1.addr.Some? && c[i].1.addr == c[j].1.addr
  }

  /** The first staged entry on one of the given cores. */
  ghost predicate FirstOn(c: Config, cpus: set<string>, name: string) {
    exists i :: 0 <= i < |c| && c[i].0 == name && c[i].1.Staged? && c[i].1.cpu in cpus && !Stages(c[..i], cpus)
  }

  ghost predicate FirstMix(c: Config, why: Rejection) {
    why.MixedCores? && FirstOn(c, {A32}, why.a32) && FirstOn(c, M55, why.m55)
  }

  method CollectStaged(c: Config) returns (fault: Option<Rejection>, staged: seq<(string, int, string)>, ghost at: seq<nat>)
    ensures fault.None? <==> Sound(c)
    ensures fault.None? ==> Lists(staged, at, c)
    ensures fault.Some? ==> FirstFault(c, fault.value)
  {
    staged, at := [], [];
    for i := 0 to |c|
      invariant Sound(c[..i])
      invariant Lists(staged, at, c[..i])
    {
      var (name, e) := c[i];
      fault := EntryFault(name, e);
      assert c[..i + 1] == c[..i] + [c[i]];
      if fault.Some? {
        FaultAt(c, i);
        return;
      }
      ListsMore(staged, at, c[..i], c[i]);
      if e.Staged? { staged, at := staged + [(name, e.addr.value, e.cpu)], at + [i]; }
    }
    assert c[..|c|] == c;
    fault := None;
  }

  lemma ListsMore(staged: seq<(string, int, string)>, at: seq<nat>, c: Config, x: (string, Entry))
    requires Lists(staged, at, c) && Sound(c) && EntryFault(x.0, x.1).None?
    ensures Sound(c + [x])
    ensures !x.1.Staged? ==> Lists(staged, at, c + [x])
    ensures x.1.Staged? ==> x.1.addr.Some? && Lists(staged + [(x.0, x.1.addr.value, x.1.cpu)], at + [|c|], c + [x])
  {
    var d := c + [x];
    assert forall i :: 0 <= i < |c| ==> d[i] == c[i];
    if x.1.Staged? {
      var more := at + [|c|];
      assert more[|at|] == |c|;
      assert forall k :: 0 <= k < |at| ==> more[k] == at[k];
    }
  }

  ghost predicate Apart(staged: seq<(string, int, string)>, n: nat) {
    forall l, k :: 0 <= l < k < n && k < |staged| ==> staged[l].1 != staged[k].1
  }

  method FindCollision(staged: seq<(string, int, string)>) returns (r: Option<Rejection>)
    ensures r.None? <==> Apart(staged, |staged|)
    ensures r.Some? ==> exists l, k :: 0 <= l < k < |staged| && staged[l].1 == staged[k].1 && Apart(staged, k)
                                       && r.value == SameAddress(staged[l].0, staged[k].0, staged[k].1)
  {
    var seen: map<int, string> := map[];
    for k := 0 to |staged|
      invariant forall a :: a in seen <==> exists l :: 0 <= l < k && staged[l].1 == a
      invariant forall l :: 0 <= l < k ==> staged[l].1 in seen && seen[staged[l].1] == staged[l].0
      invariant Apart(staged, k)
    {
      var (name, base, _) := staged[k];
      if base in seen { return Some(SameAddress(seen[base], name, base)); }
      seen := seen[base := name];
    }
    r := None;
  }

  ghost predicate On(staged: seq<(string, int, string)>, cpus: set<string>) {
    exists l :: 0 <= l < |staged| && staged[l].2 in cpus
  }

  ghost predicate Leads(staged: seq<(string, int, string)>, cpus: set<string>, name: string) {
    exists l :: 0 <= l < |staged| && staged[l].0 == name && staged[l].2 in cpus && !On(staged[..l], cpus)
  }

  lemma OnStep(staged: seq<(string, int, string)>, k: nat, cpus: set<string>)
    requires k < |staged|
    ensures On(staged[..k + 1], cpus) <==> On(staged[..k], cpus) || staged[k].2 in cpus
    ensures staged[k].2 in cpus && !On(staged[..k], cpus) ==> Leads(staged, cpus, staged[k].0)
  {
    var a, b := staged[..k], staged[..k + 1];
    if On(a, cpus) {
      var l :| 0 <= l < k && a[l].2 in cpus;
      assert b[l].2 in cpus;
    }
    if staged[k].2 in cpus { assert b[k].2 in cpus; }
    if On(b, cpus) {
      var l :| 0 <= l < k + 1 && b[l].2 in cpus;
      if l < k { assert a[l].2 in cpus; }
    }
  }

  method FindMix(staged: seq<(string, int, string)>) returns (r: Option<Rejection>)
    ensures r.None? <==> !(On(staged, {A32}) && On(staged, M55))
    ensures r.Some? ==> r.value.MixedCores? && Leads(staged, {A32}, r.value.a32) && Leads(staged, M55, r.value.m55)
  {
    var a32, m55: Option<string> := None, None;
    for k := 0 to |staged|
      invariant (a32.Some? <==> On(staged[..k], {A32})) && (a32.Some? ==> Leads(staged, {A32}, a32.value))
      invariant (m55.Some? <==> On(staged[..k], M55)) && (m55.Some? ==> Leads(staged, M55, m55.value))
    {
      OnStep(staged, k, {A32});
      OnStep(staged, k, M55);
      if staged[k].2 == A32 && a32.None? { a32 := Some(staged[k].0); }
      if staged[k].2 in M55 && m55.None? { m55 := Some(staged[k].0); }
    }
    assert staged[..|staged|] == staged;
    r := if a32.Some? && m55.Some? then Some(MixedCores(a32.value, m55.value)) else None;
  }

  lemma CollisionFree(c: Config, staged: seq<(string, int, string)>, at: seq<nat>)
    requires Lists(staged, at, c)
    ensures NoCollision(c) <==> Apart(staged, |staged|)
  {
    if Apart(staged, |staged|) {
      forall i, j | 0 <= i < j < |c| && c[i].1.Staged? && c[j].1.Staged? ensures c[i].1.addr != c[j].1.addr {
        var k :| 0 <= k < |at| && at[k] == i;
        var l :| 0 <= l < |at| && at[l] == j;
        assert k < l;
      }
    }
    if NoCollision(c) {
      forall l, k | 0 <= l < k < |staged| ensures staged[l].1 != staged[k].1 {
        assert c[at[l]].1.addr != c[at[k]].1.addr;
      }
    }
  }

  /** The guard accepts exactly the configs whose staged entries lie in their cores'
      windows, collide nowhere, and do not mix the A32 with an M55. */
  method Validate(c: Config) returns (r: Option<Rejection>)
    ensures r.None? <==> Sound(c) && NoCollision(c) && !(Stages(c, {A32}) && Stages(c, M55))
    ensures r.Some? ==>
              || FirstFault(c, r.value)
              || (Sound(c) && FirstCollision(c, r.value))
              || (Sound(c) && NoCollision(c) && FirstMix(c, r.value))
  {
    var staged;
    ghost var at;
    r, staged, at := CollectStaged(c);
    if r.Some? { return; }
    CollisionFree(c, staged, at);
    r := FindCollision(staged);
    if r.Some? {
      ghost var l, k :| 0 <= l < k < |staged| && staged[l].1 == staged[k].1 && Apart(staged, k)
                        && r.value == SameAddress(staged[l].0, staged[k].0, staged[k].1);
      CollisionAt(c, staged, at, l, k);
      return;
    }
    CoreMix(c, staged, at, {A32});
    CoreMix(c, staged, at, M55);
    r := FindMix(staged);
    if r.Some? {
      FirstOnCore(c, staged, at, {A32}, r.value.a32);
      FirstOnCore(c, staged, at, M55, r.value.m55);
    }
  }

  lemma CoreMix(c: Config, staged: seq<(string, int, string)>, at: seq<nat>, cpus: set<string>)
    requires Lists(staged, at, c)
    ensures Stages(c, cpus) <==> On(staged, cpus)
  {
    if Stages(c, cpus) {
      var i :| 0 <= i < |c| && c[i].1.Staged? && c[i].1.cpu in cpus;
      var l :| 0 <= l < |at| && at[l] == i;
      assert staged[l].2 in cpus;
    }
    if On(staged, cpus) {
      var l :| 0 <= l < |staged| && staged[l].2 in cpus;
      assert c[at[l]].1.cpu in cpus;
    }
  }

  /** The entries listed before the k-th are those staged before it. */
  lemma ListsPrefix(c: Config, staged: seq<(string, int, string)>, at: seq<nat>, k: nat)
    requires Lists(staged, at, c) && k < |at|
    ensures Lists(staged[..k], at[..k], c[..at[k]])
  {
    var d := c[..at[k]];
    forall i | 0 <= i < |d| && d[i].1.Staged? ensures i in at[..k] {
      var l :| 0 <= l < |at| && at[l] == i;
      assert l < k;
      assert at[..k][l] == i;
    }
    forall l | 0 <= l < k ensures at[l] < |d| && d[at[l]] == (staged[l].0, Staged(Some(staged[l].1), staged[l].2)) {
      assert at[l] < at[k];
    }
  }

  lemma CollisionAt(c: Config, staged: seq<(string, int, string)>, at: seq<nat>, l: nat, k: nat)
    requires Lists(staged, at, c) && l < k < |staged| && staged[l].1 == staged[k].1 && Apart(staged, k)
    ensures FirstCollision(c, SameAddress(staged[l].0, staged[k].0, staged[k].1))
  {
    ListsPrefix(c, staged, at, k);
    assert Apart(staged[..k], k);
    CollisionFree(c[..at[k]], staged[..k], at[..k]);
    assert Meet(c, at[l], at[k]);
  }

  lemma FirstOnCore(c: Config, staged: seq<(string, int, string)>, at: seq<nat>, cpus: set<string>, name: string)
    requires Lists(staged, at, c) && Leads(staged, cpus, name)
    ensures FirstOn(c, cpus, name)
  {
    var l :| 0 <= l < |staged| && staged[l].0 == name && staged[l].2 in cpus && !On(staged[..l], cpus);
    ListsPrefix(c, staged, at, l);
    CoreMix(c[..at[l]], staged[..l], at[..l], cpus);
    assert c[at[l]].1.cpu in cpus;
  }

  lemma {:induction false} CeilingsClear(windows: seq<(string, int, int)>, band: int)
    requires Ceilings(windows, band) == []
    ensures forall i :: 0 <= i < |windows| ==> windows[i].1 + windows[i].2 <= band
    decreases windows
  {
    if windows != [] {
      CeilingsClear(windows[1..], band);
      forall i | 0 <= i < |windows| ensures windows[i].1 + windows[i].2 <= band {
        if i > 0 { assert windows[i] == windows[1..][i - 1]; }
      }
    }
  }

  /** The two gates together: where the preset check is clean, no address a sound
      config stages reaches the preset's `atoc` band. */
  lemma StagedBelowBand(rows: seq<Row>, aperture: Option<Aperture>, c: Config, i: nat)
    requires PresetFailures(rows, aperture) == [] && BandBase(Spans(rows)).Some?
    requires Sound(c) && i < |c| && c[i].1.Staged?
    ensures c[i].1.addr.Some? && c[i].1.addr.value < BandBase(Spans(rows)).value
  {
    CeilingsClear(WINDOWS, BandBase(Spans(rows)).value);
    assert EntryFault(c[i].0, c[i].1).None?;
    var w := Window(c[i].1.cpu, WINDOWS).value;
    var k :| 0 <= k < |WINDOWS| && WINDOWS[k] == (c[i].1.cpu, w.0, w.1);
  }
}
