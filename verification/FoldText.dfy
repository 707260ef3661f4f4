/** The folded section spelled out line by line. */
module FoldText {
  import opened PyText
  import opened Fold

  ghost predicate AllBlank(xs: seq<string>) { forall i :: 0 <= i < |xs| ==> AllSpace(xs[i]) }

  ghost predicate BlankAt(xs: seq<string>, i: int)
    requires 0 <= i < |xs|
  {
    AllSpace(xs[i])
  }

  /** No blank line at its end. */
  ghost predicate ClosedBelow(xs: seq<string>) { xs == [] || !BlankAt(xs, |xs| - 1) }

  /** No blank line at its start either. */
  ghost predicate Closed(xs: seq<string>) { ClosedBelow(xs) && (xs == [] || !BlankAt(xs, 0)) }

  lemma {:induction false} TrimEndIs(top: seq<string>, low: seq<string>)
    requires ClosedBelow(top) && AllBlank(low)
    ensures TrimEnd(top + low) == top
    decreases |low|
  {
    if low == [] {
      assert top + low == top;
    } else {
      var n := |low| - 1;
      assert (top + low)[..|top + low| - 1] == top + low[..n];
      assert Blank(low[n]);
      TrimEndIs(top, low[..n]);
    }
  }

  lemma {:induction false} TrimStartIs(lead: seq<string>, rest: seq<string>)
    requires AllBlank(lead) && (rest == [] || !BlankAt(rest, 0))
    ensures TrimStart(lead + rest) == rest
  {
    if lead == [] {
      assert lead + rest == rest;
    } else {
      assert (lead + rest)[1..] == lead[1..] + rest;
      assert Blank(lead[0]);
      TrimStartIs(lead[1..], rest);
    }
  }

  /** Every body is blank lines, then lines that neither start nor end blank, then blank
      lines. */
  lemma {:induction false} BodyParts(body: seq<string>) returns (lead: seq<string>, core: seq<string>, low: seq<string>)
    ensures body == lead + core + low && AllBlank(lead) && Closed(core) && AllBlank(low)
  {
    if body == [] {
      return [], [], [];
    }
    lead, core, low := BodyParts(body[1..]);
    if core == [] {
      if AllSpace(body[0]) {
        lead := [body[0]] + lead;
      } else {
        low := lead + low;
        lead, core := [], [body[0]];
      }
    } else if AllSpace(body[0]) {
      lead := [body[0]] + lead;
    } else {
      core := [body[0]] + lead + core;
      lead := [];
    }
    assert body == [body[0]] + body[1..];
  }

  /** The fragments as one text, an empty line between two of them. */
  ghost function Joined(frags: seq<string>): string
    requires frags != []
  {
    if |frags| == 1 then frags[0] else frags[0] + "\n\n" + Joined(frags[1..])
  }

  lemma {:induction false} InsertedExact(frags: seq<string>)
    requires frags != []
    ensures Inserted(frags) == SplitOn(Joined(frags), '\n')
  {
    if |frags| > 1 {
      InsertedExact(frags[1..]);
      var f, rest := frags[0], Joined(frags[1..]);
      assert f + "\n\n" + rest == f + ['\n'] + (['\n'] + rest);
      SplitAfter(f, ['\n'] + rest);
      assert SplitOn(['\n'] + rest, '\n') == [""] + SplitOn(rest, '\n') by { assert (['\n'] + rest)[1..] == rest; }
      Assoc(SplitOn(f, '\n'), [""], SplitOn(rest, '\n'));
    }
  }

  lemma {:induction false} SplitAfter(f: string, t: string)
    ensures SplitOn(f + ['\n'] + t, '\n') == SplitOn(f, '\n') + SplitOn(t, '\n')
  {
    var s := f + ['\n'] + t;
    if f == [] {
      assert s[1..] == t && s[0] == '\n';
    } else {
      assert s[1..] == f[1..] + ['\n'] + t && s[0] == f[0];
      SplitAfter(f[1..], t);
      var a, b := SplitOn(f[1..], '\n'), SplitOn(t, '\n');
      if f[0] == '\n' {
        Assoc([[]], a, b);
      } else {
        FirstGrows(f[0], a, b);
      }
    }
  }

  lemma FirstGrows(c: char, a: seq<string>, b: seq<string>)
    requires a != []
    ensures [[c] + (a + b)[0]] + (a + b)[1..] == ([[c] + a[0]] + a[1..]) + b
  {
  }

  /** Header, empty line, content, empty line; a section without content ends at the first
      empty line. */
  ghost function Page(header: string, content: seq<string>): seq<string> {
    if content == [] then [header, ""] else [header, ""] + content + [""]
  }

  /** The new section, from the old one's lines: the fragments, an empty line where both
      are there, and the old content without the blank lines around it. */
  lemma SectionText(header: string, frags: seq<string>, lead: seq<string>, core: seq<string>, low: seq<string>)
    requires |header| >= 15 && header[..15] == "## [Unreleased]"
    requires AllBlank(lead) && Closed(core) && AllBlank(low)
    ensures Starts(header, Unreleased)
    ensures core != [] && frags != []
            ==> NewSection(header, frags, lead + core + low) == Page(header, SplitOn(Joined(frags), '\n') + [""] + core)
    ensures frags == [] ==> NewSection(header, frags, lead + core + low) == Page(header, core)
    ensures core == [] && frags != []
            ==> forall top, under :: SplitOn(Joined(frags), '\n') == top + under && ClosedBelow(top) && AllBlank(under)
                  ==> NewSection(header, frags, lead + core + low) == Page(header, top)
  {
    assert header[..|Unreleased|] == Unreleased;
    HeaderNotBlank(header);
    SectionForm(header, frags, lead + core + low);
    if frags != [] { InsertedExact(frags); }
    if core != [] {
      CoreStays(lead, core, low);
      CoreContent(Inserted(frags), core, low);
    } else {
      NothingStays(lead, core, low);
      assert Stack(Inserted(frags), []) == Inserted(frags);
      forall top, under | Inserted(frags) == top + under && ClosedBelow(top) && AllBlank(under) ensures TrimEnd(Inserted(frags)) == top {
        TrimEndIs(top, under);
      }
    }
  }

  lemma CoreStays(lead: seq<string>, core: seq<string>, low: seq<string>)
    requires AllBlank(lead) && core != [] && Closed(core)
    ensures TrimStart(lead + core + low) == core + low
  {
    Assoc(lead, core, low);
    assert (core + low)[0] == core[0];
    TrimStartIs(lead, core + low);
  }

  lemma NothingStays(lead: seq<string>, core: seq<string>, low: seq<string>)
    requires AllBlank(lead) && core == [] && AllBlank(low)
    ensures TrimStart(lead + core + low) == []
  {
    var all := lead + low;
    assert AllBlank(all);
    assert lead + core + low == all + [];
    TrimStartIs(all, []);
  }

  lemma CoreContent(top: seq<string>, core: seq<string>, low: seq<string>)
    requires core != [] && Closed(core) && AllBlank(low)
    ensures TrimEnd(Stack(top, core + low)) == if top == [] then core else top + [""] + core
  {
    var head := if top == [] then [] else top + [""];
    assert Stack(top, core + low) == (head + core) + low;
    assert (head + core)[|head + core| - 1] == core[|core| - 1];
    TrimEndIs(head + core, low);
    assert top == [] ==> head + core == core;
  }

  /** The section is found by its own two line beginnings. */
  lemma SectionLines(lines: seq<string>, s: nat, e: nat)
    ensures Section(lines, s, e)
            <==> s < e <= |lines| && Opens(lines[s], "## [Unreleased]")
                 && (forall i :: 0 <= i < s ==> !Opens(lines[i], "## [Unreleased]"))
                 && (forall i :: s < i < e ==> !Opens(lines[i], "## ["))
                 && (e < |lines| ==> Opens(lines[e], "## ["))
  {
    forall i | 0 <= i < |lines|
      ensures (Starts(lines[i], Unreleased) <==> Opens(lines[i], "## [Unreleased]")) && (Starts(lines[i], Heading) <==> Opens(lines[i], "## ["))
    {
      OpensIs(lines[i], "## [Unreleased]");
      OpensIs(lines[i], "## [");
    }
  }

  ghost predicate Opens(line: string, what: string) { exists rest :: line == what + rest }

  lemma OpensIs(line: string, what: string)
    ensures Starts(line, what) <==> Opens(line, what)
  {
    if Starts(line, what) { assert line == what + line[|what|..]; }
  }
}
