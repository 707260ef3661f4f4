/** What the assembly guard admits and refuses, in the addresses and core names of the
    parts. */
module AtocConfigs {
  import opened PyText
  import opened FlashGate
  import opened AtocAssembly

  /** The bytes one core may execute from. */
  ghost predicate Runs(cpu: string, a: int) {
    || (cpu == "M55_HE" && 0x8001_0000 <= a < 0x802B_0000)
    || (cpu == "M55_HP" && 0x802B_0000 <= a < 0x8055_0000)
    || (cpu == "A32_0" && 0x8000_2000 <= a < 0x8057_8000)
  }

  ghost predicate InMram(a: int) { 0x8000_0000 <= a < 0x8058_0000 }

  ghost predicate Known(cpu: string) { cpu == "M55_HE" || cpu == "M55_HP" || cpu == "A32_0" }

  lemma WindowExact(cpu: string)
    ensures Window(cpu, WINDOWS).Some? <==> Known(cpu)
    ensures forall a :: Window(cpu, WINDOWS).Some? ==> var w := Window(cpu, WINDOWS).value; (w.0 <= a < w.0 + w.1 <==> Runs(cpu, a))
  {
    var w1 := WINDOWS[1..];
    var w2 := w1[1..];
    assert w1 == [("M55_HP", 0x802b0000, 2688 * 1024), ("A32_0", 0x80002000, 0x80578000 - 0x80002000)];
    assert w2 == [("A32_0", 0x80002000, 0x80578000 - 0x80002000)];
    assert w2[1..] == [];
    assert Window(cpu, w2) == if cpu == "A32_0" then Some((0x80002000, 0x80578000 - 0x80002000)) else None;
    Apart3();
  }

  lemma Apart3()
    ensures "M55_HE" != "M55_HP" && "M55_HE" != "A32_0" && "M55_HP" != "A32_0"
  {
    assert "M55_HE"[5] != "M55_HP"[5];
    assert |"A32_0"| == 5;
  }

  /** One entry alone: whether it passes, and which fault it has if it does not. */
  lemma FaultExact(name: string, e: Entry)
    ensures EntryFault(name, e) == None <==> (e.Staged? ==> e.addr.Some? && Runs(e.cpu, e.addr.value))
    ensures EntryFault(name, e) == Some(NonNumeric(name)) <==> e.Staged? && e.addr.None?
    ensures EntryFault(name, e) == Some(OutsideMram(name)) <==> e.Staged? && e.addr.Some? && !InMram(e.addr.value)
    ensures EntryFault(name, e) == Some(UnknownCpu(name)) <==> e.Staged? && e.addr.Some? && InMram(e.addr.value) && !Known(e.cpu)
    ensures EntryFault(name, e) == Some(OutsideWindow(name))
            <==> e.Staged? && e.addr.Some? && InMram(e.addr.value) && Known(e.cpu) && !Runs(e.cpu, e.addr.value)
  {
    if e.Staged? { WindowExact(e.cpu); }
  }

  /** A staged entry on one of the given cores, by name. */
  ghost predicate StagesOn(c: Config, cpu: string) { exists i :: 0 <= i < |c| && c[i].1.Staged? && c[i].1.cpu == cpu }

  lemma StagesExact(c: Config)
    ensures Stages(c, {A32}) <==> StagesOn(c, "A32_0")
    ensures Stages(c, M55) <==> StagesOn(c, "M55_HE") || StagesOn(c, "M55_HP")
  {
    if Stages(c, {A32}) {
      var i :| 0 <= i < |c| && c[i].1.Staged? && c[i].1.cpu in {A32};
      assert c[i].1.cpu == "A32_0";
    }
    if Stages(c, M55) {
      var i :| 0 <= i < |c| && c[i].1.Staged? && c[i].1.cpu in M55;
      assert c[i].1.cpu == "M55_HE" || c[i].1.cpu == "M55_HP";
    }
  }

  /** What `Validate` accepts: every staged address readable and inside its core's bytes,
      no two alike, and no A32 entry beside an M55 entry. */
  lemma AcceptsExact(c: Config)
    ensures Sound(c) && NoCollision(c) && !(Stages(c, {A32}) && Stages(c, M55))
            <==> && (forall i :: 0 <= i < |c| && c[i].1.Staged? ==> c[i].1.addr.Some? && Runs(c[i].1.cpu, c[i].1.addr.value))
                 && (forall i, j :: 0 <= i < j < |c| && c[i].1.Staged? && c[j].1.Staged? ==> c[i].1.addr != c[j].1.addr)
                 && !(StagesOn(c, "A32_0") && (StagesOn(c, "M55_HE") || StagesOn(c, "M55_HP")))
  {
    StagesExact(c);
    forall i | 0 <= i < |c|
      ensures EntryFault(c[i].0, c[i].1).None? <==> (c[i].1.Staged? ==> c[i].1.addr.Some? && Runs(c[i].1.cpu, c[i].1.addr.value))
    {
      FaultExact(c[i].0, c[i].1);
    }
  }
}
