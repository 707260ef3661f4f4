/** The `macro:` map of a scaffold, and its rewrite of the board file, which counts its
    keys less strictly than the pad rewrite. */
module PinMacros {
  import opened PyText
  import opened Renames
  import opened PinMaps

  function MacroIntent(item: Item, b: Boards): Intent<string> {
    if item.macro.None? then Silent
    else match TargetOf(item, b)
         case Nothing => Silent
         case Unresolved => Fails
         case To(r) => if r.macro.None? then Fails else Wants(item.macro.value, item.macro.value, r.macro.value)
  }

  function MacroIntents(items: seq<Item>, b: Boards): (r: seq<Intent<string>>)
    ensures |r| == |items| && forall i :: 0 <= i < |items| ==> r[i] == MacroIntent(items[i], b)
  {
    if items == [] then [] else [MacroIntent(items[0], b)] + MacroIntents(items[1..], b)
  }

  method DerivePinMacroRenames(items: seq<Item>, b: Boards) returns (r: Option<Pairs<string>>)
    ensures r.Some? <==> NoFailure(MacroIntents(items, b)) && !MoveClash(MacroIntents(items, b))
    ensures r.Some? ==> MapOf(r.value, MacroIntents(items, b))
  {
    var rs: Pairs<string> := [];
    ghost var xs := MacroIntents(items, b);
    for n := 0 to |items|
      invariant NoFailure(xs[..n]) && MapOf(rs, xs[..n])
    {
      var ok;
      ok, rs := AddChange(rs, MacroIntent(items[n], b), xs, n);
      if !ok { return None; }
    }
    assert xs[..|items|] == xs;
    MapNoClash(rs, xs);
    r := Some(rs);
  }

  /** One rename after another over the `macro:` sites, each only asked to occur. */
  function SubstituteMacros(sites: seq<string>, rs: Pairs<string>): Option<seq<string>>
    decreases rs
  {
    if rs == [] then Some(sites)
    else if CountOf(sites, rs[0].0) < 1 then None
    else SubstituteMacros(Replace(sites, rs[0].0, rs[0].1), rs[1..])
  }

  method SubstitutePinMacros(sites: seq<string>, rs: Pairs<string>) returns (r: Option<seq<string>>)
    ensures r == SubstituteMacros(sites, rs)
  {
    var text := sites;
    for i := 0 to |rs|
      invariant SubstituteMacros(text, rs[i..]) == SubstituteMacros(sites, rs)
    {
      assert rs[i..][0] == rs[i] && rs[i..][1..] == rs[i + 1..];
      var n := CountOf(text, rs[i].0);
      if n < 1 { return None; }
      text := Replace(text, rs[i].0, rs[i].1);
    }
    r := Some(text);
  }

  lemma {:induction false} CountPositive(sites: seq<string>, k: string)
    ensures CountOf(sites, k) >= 1 <==> k in sites
  {
    if sites != [] {
      assert sites == [sites[0]] + sites[1..];
      CountPositive(sites[1..], k);
    }
  }

  lemma {:induction false} MacroSteps(sites: seq<string>, macros: seq<string>, rs: Pairs<string>, j: nat)
    requires j <= |rs| && DistinctKeys(rs) && Midway(sites, macros, rs[..j])
    requires forall n :: j <= n < |rs| ==> !ChainAt(macros, rs, n)
    ensures SubstituteMacros(sites, rs[j..]).Some? <==> forall n :: j <= n < |rs| ==> rs[n].0 in macros
    ensures SubstituteMacros(sites, rs[j..]).Some? ==> Midway(SubstituteMacros(sites, rs[j..]).value, macros, rs)
    decreases |rs| - j
  {
    if j < |rs| {
      StepCounts(sites, macros, rs, j);
      CountPositive(macros, rs[j].0);
      CountPositive(sites, rs[j].0);
      assert rs[j..][0] == rs[j] && rs[j..][1..] == rs[j + 1..];
      StepMidway(sites, macros, rs, j);
      MacroSteps(Replace(sites, rs[j].0, rs[j].1), macros, rs, j + 1);
    } else {
      assert rs[..j] == rs;
    }
  }

  /** Without a chain the macro rewrite is simultaneous, and refused exactly when a key
      does not occur. */
  lemma MacrosSimultaneous(macros: seq<string>, rs: Pairs<string>)
    requires DistinctKeys(rs) && !ForwardChain(macros, rs)
    ensures SubstituteMacros(macros, rs).Some? <==> forall i :: 0 <= i < |rs| ==> rs[i].0 in macros
    ensures SubstituteMacros(macros, rs).Some? ==> SubstituteMacros(macros, rs).value == Simultaneous(macros, rs)
  {
    assert rs[..0] == [] && rs[0..] == rs;
    MacroSteps(macros, macros, rs, 0);
  }

  /** Two sites that once read the same read the same at the end. */
  lemma {:induction false} SitesMerge(sites: seq<string>, rs: Pairs<string>, x: nat, y: nat)
    requires x < |sites| && y < |sites| && sites[x] == sites[y] && SubstituteMacros(sites, rs).Some?
    ensures var out := SubstituteMacros(sites, rs).value; |out| == |sites| && out[x] == out[y]
    decreases rs
  {
    if rs != [] { SitesMerge(Replace(sites, rs[0].0, rs[0].1), rs[1..], x, y); }
  }

  /** A site renamed onto a later key merges with that key's own site. */
  lemma {:induction false} ChainMerges(sites: seq<string>, rs: Pairs<string>, i: nat, j: nat, x: nat, y: nat)
    requires i < j < |rs| && DistinctKeys(rs) && rs[i].1 == rs[j].0
    requires x < |sites| && y < |sites| && sites[x] == rs[i].0 && sites[y] == rs[j].0
    requires SubstituteMacros(sites, rs).Some?
    ensures var out := SubstituteMacros(sites, rs).value; |out| == |sites| && out[x] == out[y]
    decreases rs
  {
    var next := Replace(sites, rs[0].0, rs[0].1);
    KeysApart(rs, j);
    if i == 0 {
      SitesMerge(next, rs[1..], x, y);
    } else {
      KeysApart(rs, i);
      ChainMerges(next, rs[1..], i - 1, j - 1, x, y);
    }
  }

  lemma KeysApart(rs: Pairs<string>, i: nat)
    requires 0 < i < |rs| && DistinctKeys(rs)
    ensures DistinctKeys(rs[1..]) && rs[1..][i - 1] == rs[i] && rs[0].0 != rs[i].0
  {
  }

  /** With every key in the file, the macro rewrite is simultaneous renaming if and only
      if no rename lands on the key of a later one. */
  lemma MacrosExact(macros: seq<string>, rs: Pairs<string>)
    requires DistinctKeys(rs) && forall i :: 0 <= i < |rs| ==> rs[i].0 != rs[i].1 && rs[i].0 in macros
    ensures SubstituteMacros(macros, rs) == Some(Simultaneous(macros, rs)) <==> !ForwardChain(macros, rs)
  {
    if ForwardChain(macros, rs) {
      var i, j :| 0 <= i < j < |rs| && rs[i].1 == rs[j].0 && rs[i].0 in macros;
      var x :| 0 <= x < |macros| && macros[x] == rs[i].0;
      var y :| 0 <= y < |macros| && macros[y] == rs[j].0;
      LookupAt(rs, i, rs[i].0);
      LookupAt(rs, j, rs[j].0);
      if SubstituteMacros(macros, rs).Some? { ChainMerges(macros, rs, i, j, x, y); }
    } else {
      MacrosSimultaneous(macros, rs);
    }
  }

  function MacrosOf(items: seq<Item>): seq<string> {
    if items == [] then [] else (if items[0].macro.Some? then [items[0].macro.value] else []) + MacrosOf(items[1..])
  }

  lemma {:induction false} OwnMacro(items: seq<Item>, i: nat)
    requires i < |items| && items[i].macro.Some?
    ensures items[i].macro.value in MacrosOf(items)
  {
    if i > 0 { OwnMacro(items[1..], i - 1); }
  }

  /** Every derived macro map: its rewrite is simultaneous renaming if and only if no
      rename lands on the key of a later one. */
  lemma MacroMapExact(items: seq<Item>, b: Boards, rs: Pairs<string>)
    requires MapOf(rs, MacroIntents(items, b))
    ensures SubstituteMacros(MacrosOf(items), rs) == Some(Simultaneous(MacrosOf(items), rs)) <==> !ForwardChain(MacrosOf(items), rs)
  {
    var xs := MacroIntents(items, b);
    forall k | 0 <= k < |rs| ensures rs[k].0 != rs[k].1 && rs[k].0 in MacrosOf(items) {
      var i :| 0 <= i < |xs| && Changes(xs[i]) && rs[k] == (xs[i].was, xs[i].now);
      assert xs[i] == MacroIntent(items[i], b);
      OwnMacro(items, i);
    }
    MacrosExact(MacrosOf(items), rs);
  }

  /** A two-rename chain: the macro rewrite goes wrong unreported, the pad rewrite
      refuses. */
  lemma MacroChainUndetected(a: string, b: string, c: string)
    requires a != b && b != c && a != c
    ensures SubstituteMacros([a, b], [(a, b), (b, c)]) == Some([c, c])
    ensures Simultaneous([a, b], [(a, b), (b, c)]) == [b, c]
    ensures Substitute([a, b], [(a, b), (b, c)], [a, b]) == None
  {
    MacroChain(a, b, c);
    ChainImages(a, b, c);
    ChainOfTwo(a, b, c);
    SequentialIsSimultaneous([a, b], [(a, b), (b, c)]);
  }

  lemma MacroChain(a: string, b: string, c: string)
    requires a != b
    ensures SubstituteMacros([a, b], [(a, b), (b, c)]) == Some([c, c])
  {
    assert [(a, b), (b, c)] == [(a, b)] + [(b, c)];
    OneMacro([a, b], a, b, [(b, c)]);
    OneMacro([b, b], b, c, []);
    assert Replace([a, b], a, b) == [b, b] && Replace([b, b], b, c) == [c, c];
  }

  lemma ChainImages(a: string, b: string, c: string)
    requires a != b
    ensures Simultaneous([a, b], [(a, b), (b, c)]) == [b, c]
  {
    var rs := [(a, b), (b, c)];
    LookupAt(rs, 0, a);
    LookupAt(rs, 1, b);
  }

  lemma OneMacro(sites: seq<string>, was: string, now: string, rest: Pairs<string>)
    requires was in sites
    ensures SubstituteMacros(sites, [(was, now)] + rest) == SubstituteMacros(Replace(sites, was, now), rest)
  {
    CountPositive(sites, was);
    assert ([(was, now)] + rest)[1..] == rest;
  }

  lemma ChainOfTwo(a: string, b: string, c: string)
    requires a != b
    ensures var rs := [(a, b), (b, c)]; DistinctKeys(rs) && ForwardChain([a, b], rs)
  {
    var rs := [(a, b), (b, c)];
    assert rs[0].1 == rs[1].0 && rs[0].0 == [a, b][0];
  }
}
