/** The two buffer tails that give a brace its meaning, in terms of the header's text:
    what opens an aggregate, and what opens a linkage specification. */
module AbiTails {
  import opened PyText
  import opened AbiFlatten

  /** The buffer after plain text `s` has been fed to it. */
  function Collapse(buf: string, s: string): string
    decreases s
  {
    if s == [] then buf else Collapse(Feed(buf, s[0]), s[1..])
  }

  lemma {:induction false} CollapseAppend(buf: string, a: string, b: string)
    ensures Collapse(buf, a + b) == Collapse(Collapse(buf, a), b)
    decreases a
  {
    if a == [] {
      assert a + b == b;
    } else {
      assert (a + b)[0] == a[0] && (a + b)[1..] == a[1..] + b;
      CollapseAppend(Feed(buf, a[0]), a[1..], b);
    }
  }

  lemma CollapseOne(buf: string, a: string, c: char)
    ensures Collapse(buf, a + [c]) == Feed(Collapse(buf, a), c)
  {
    CollapseAppend(buf, a, [c]);
    assert [c][1..] == [];
  }

  // ------------------------------------------------------ collapsing from the right

  lemma CollapseLast(s: string)
    requires s != []
    ensures var c, p := Collapse([], s), Collapse([], s[..|s| - 1]);
            if IsSpace(s[|s| - 1]) then (c == p || c == p + " ") && (c == [] || c[|c| - 1] == ' ')
            else c == p + [s[|s| - 1]]
  {
    assert s == s[..|s| - 1] + [s[|s| - 1]];
    CollapseOne([], s[..|s| - 1], s[|s| - 1]);
    FeedLast(Collapse([], s[..|s| - 1]), s[|s| - 1]);
  }

  lemma FeedLast(p: string, c: char)
    ensures if IsSpace(c) then (Feed(p, c) == p || Feed(p, c) == p + " ") && (Feed(p, c) == [] || Feed(p, c)[|Feed(p, c)| - 1] == ' ')
            else Feed(p, c) == p + [c]
  {
  }

  lemma StripBlank(s: string)
    ensures RStrip(s + " ") == RStrip(s)
  {
    assert (s + " ")[..|s|] == s;
  }

  lemma {:induction false} StripCollapse(s: string)
    ensures RStrip(Collapse([], s)) == Collapse([], RStrip(s))
  {
    if s != [] {
      CollapseLast(s);
      if IsSpace(s[|s| - 1]) {
        StripCollapse(s[..|s| - 1]);
        StripBlank(Collapse([], s[..|s| - 1]));
      }
    }
  }

  predicate Solid(w: string) { forall i :: 0 <= i < |w| ==> !IsSpace(w[i]) }

  lemma {:induction false} EndsCollapse(s: string, w: string)
    requires Solid(w)
    ensures EndsWith(Collapse([], s), w) <==> EndsWith(s, w)
    ensures EndsWith(s, w) ==> Collapse([], s) == Collapse([], s[..|s| - |w|]) + w
    decreases w
  {
    if w == [] {
      assert s[..|s|] == s;
    } else if s != [] {
      CollapseLast(s);
      EndsCollapse(s[..|s| - 1], w[..|w| - 1]);
      EndsStep(s, w);
      EndsStep(Collapse([], s), w);
      if s[|s| - 1] == w[|w| - 1] { EndsSnoc(Collapse([], s[..|s| - 1]), s, w); }
    }
  }

  lemma EndsSnoc(c: string, s: string, w: string)
    requires w != [] && s != [] && s[|s| - 1] == w[|w| - 1]
    ensures (c + [s[|s| - 1]])[..|c|] == c
    ensures EndsWith(s, w) ==> s[..|s| - 1][..|s| - |w|] == s[..|s| - |w|]
    ensures forall p :: c == p + w[..|w| - 1] ==> c + [s[|s| - 1]] == p + w
  {
    forall p | c == p + w[..|w| - 1] ensures c + [s[|s| - 1]] == p + w {
      assert w == w[..|w| - 1] + [w[|w| - 1]];
      Assoc(p, w[..|w| - 1], [w[|w| - 1]]);
    }
  }

  lemma EndsStep(s: string, w: string)
    requires w != []
    ensures EndsWith(s, w) <==> s != [] && s[|s| - 1] == w[|w| - 1] && EndsWith(s[..|s| - 1], w[..|w| - 1])
  {
    if s != [] && |w| <= |s| {
      var a := s[|s| - |w|..];
      assert a[..|w| - 1] == s[..|s| - 1][|s| - |w|..];
      assert a == a[..|w| - 1] + [s[|s| - 1]] && w == w[..|w| - 1] + [w[|w| - 1]];
    }
  }

  /** Nothing, or something that ends in whitespace. */
  predicate Edge(s: string) { s == [] || IsSpace(s[|s| - 1]) }

  lemma EdgeCollapse(s: string)
    ensures Edge(Collapse([], s)) <==> Edge(s)
  {
    if s != [] { CollapseLast(s); }
  }

  lemma WordTailCollapse(s: string, w: string)
    requires Solid(w)
    ensures WordTail(Collapse([], s), w) <==> WordTail(s, w)
  {
    EndsCollapse(s, w);
    if EndsWith(s, w) {
      var p := s[..|s| - |w|];
      EdgeCollapse(p);
      WordEdge(s, w);
      WordEdge(Collapse([], s), w);
      assert Collapse([], s)[..|Collapse([], s)| - |w|] == Collapse([], p);
    }
  }

  lemma WordEdge(s: string, w: string)
    ensures WordTail(s, w) <==> EndsWith(s, w) && Edge(s[..|s| - |w|])
  {
  }

  lemma {:induction false} DropCollapse(s: string)
    ensures |DropWord(s)| <= |s| && DropWord(Collapse([], s)) == Collapse([], DropWord(s))
    ensures Collapse([], s) == Collapse([], DropWord(s)) + s[|DropWord(s)|..]
  {
    if s != [] {
      CollapseLast(s);
      var p, c := s[..|s| - 1], s[|s| - 1];
      assert s == p + [c];
      if IsWord(c) {
        WordSolid(c);
        DropCollapse(p);
        DropSnoc(p, c);
        DropSnoc(Collapse([], p), c);
        SnocRest(p, c, |DropWord(p)|);
        Assoc(Collapse([], DropWord(p)), p[|DropWord(p)|..], [c]);
      } else {
        assert s[|s|..] == [];
      }
    }
  }

  lemma DropSnoc(p: string, c: char)
    requires IsWord(c)
    ensures DropWord(p + [c]) == DropWord(p)
  {
    assert (p + [c])[..|p|] == p;
  }

  lemma SnocRest(p: string, c: char, n: nat)
    requires n <= |p|
    ensures (p + [c])[n..] == p[n..] + [c]
  {
  }

  lemma WordSolid(c: char)
    ensures IsWord(c) ==> !IsSpace(c)
  {
  }

  lemma WordsSolid()
    ensures Solid("struct") && Solid("union") && Solid("enum") && Solid("extern") && Solid("\"C\"")
  {
  }

  lemma AggWordCollapse(s: string)
    ensures AggWord(Collapse([], s)) <==> AggWord(s)
  {
    WordsSolid();
    WordTailCollapse(s, "struct");
    WordTailCollapse(s, "union");
    WordTailCollapse(s, "enum");
  }

  lemma AggWordEnds(t: string)
    requires AggWord(t)
    ensures t != [] && !IsSpace(t[|t| - 1])
  {
    assert "struct"[5] == 't' && "union"[4] == 'n' && "enum"[3] == 'm';
  }

  /** A blank is dropped from the end of the collapsed text where the text ends in whitespace. */
  lemma BlankCollapse(h: string)
    requires Collapse([], RStrip(h)) != []
    ensures |RStrip(Collapse([], h))| < |Collapse([], h)| <==> |RStrip(h)| < |h|
  {
    StripCollapse(h);
    var c := Collapse([], h);
    SolidEnd(h);
    SolidEnd(c);
    assert RStrip([]) == [];
    if h != [] { CollapseLast(h); }
  }

  lemma {:induction false} SolidEnd(s: string)
    ensures |RStrip(s)| < |s| <==> s != [] && IsSpace(s[|s| - 1])
  {
    if s != [] && IsSpace(s[|s| - 1]) { RStripPrefix(s[..|s| - 1]); }
  }

  /** Collapsing whitespace does not change whether the tail opens an aggregate. */
  lemma AggCollapse(head: string)
    ensures AggTail(RStrip(Collapse([], head))) <==> AggTail(RStrip(head))
  {
    var t := RStrip(head);
    StripCollapse(head);
    AggWordCollapse(t);
    DropCollapse(t);
    NamedCollapse(t, DropWord(t));
  }

  /** The same for a tail with a name, `h` being what stands before the name. */
  lemma NamedCollapse(t: string, h: string)
    requires |h| <= |t| && h == DropWord(t) && DropWord(Collapse([], t)) == Collapse([], h)
    requires Collapse([], t) == Collapse([], h) + t[|h|..]
    ensures Named(Collapse([], t), Collapse([], h)) <==> Named(t, h)
  {
    var c := Collapse([], h);
    StripCollapse(h);
    AggWordCollapse(RStrip(h));
    if |h| < |t| { assert Collapse([], t)[|c|] == t[|h|]; }
    if AggWord(RStrip(h)) {
      AggWordEnds(RStrip(c));
      BlankCollapse(h);
    }
  }

  predicate Named(t: string, h: string) {
    |h| < |t| && !IsDigit(t[|h|]) && |RStrip(h)| < |h| && AggWord(RStrip(h))
  }

  // ---------------------------------------------------------------- aggregates

  predicate Keyword(w: string) { w == "struct" || w == "union" || w == "enum" }

  predicate Identifier(n: string) { n != [] && !IsDigit(n[0]) && forall i :: 0 <= i < |n| ==> IsWord(n[i]) }

  /** A keyword after nothing or whitespace. */
  ghost predicate Ends(u: string, before: string, word: string) { u == before + word && Edge(before) && Keyword(word) }

  /** Nothing, or whitespace and a name. */
  ghost predicate Tag(gap: string, name: string) {
    AllSpace(gap) && (gap == [] <==> name == []) && (name != [] ==> Identifier(name))
  }

  /** The text in front of a brace opens an aggregate: it ends, up to whitespace, in
      `struct`, `union` or `enum` and optionally a name. */
  ghost predicate OpensAggregate(head: string) {
    exists before, word, gap, name, trail :: Opens(head, before, word, gap, name, trail)
  }

  ghost predicate Opens(head: string, before: string, word: string, gap: string, name: string, trail: string) {
    && head == before + word + (gap + name) + trail
    && Edge(before) && Keyword(word) && Tag(gap, name) && AllSpace(trail)
  }

  lemma WordEnds(t: string, w: string)
    requires Keyword(w) && WordTail(t, w)
    ensures Ends(t, t[..|t| - |w|], w)
  {
    WordEdge(t, w);
  }

  lemma EndsWord(t: string, before: string, w: string)
    requires Ends(t, before, w)
    ensures WordTail(t, w) && AggWord(t)
  {
    assert t[..|t| - |w|] == before && t[|t| - |w|..] == w;
    WordEdge(t, w);
  }

  lemma WordHasEnds(t: string) returns (before: string, word: string)
    requires AggWord(t)
    ensures Ends(t, before, word)
  {
    word := if WordTail(t, "struct") then "struct" else if WordTail(t, "union") then "union" else "enum";
    before := t[..|t| - |word|];
    WordEnds(t, word);
  }

  lemma {:induction false} DropName(h: string, name: string)
    requires (forall i :: 0 <= i < |name| ==> IsWord(name[i])) && (h != [] ==> !IsWord(h[|h| - 1]))
    ensures DropWord(h + name) == h
    decreases name
  {
    if name == [] {
      assert h + name == h;
    } else {
      assert (h + name)[..|h + name| - 1] == h + name[..|name| - 1];
      DropName(h, name[..|name| - 1]);
    }
  }

  lemma {:induction false} DropRest(t: string)
    ensures |DropWord(t)| <= |t| && t == DropWord(t) + t[|DropWord(t)|..] && forall i :: |DropWord(t)| <= i < |t| ==> IsWord(t[i])
  {
    if t != [] && IsWord(t[|t| - 1]) { DropRest(t[..|t| - 1]); }
  }

  lemma {:induction false} StripRest(s: string, gap: string)
    requires AllSpace(gap) && (s != [] ==> !IsSpace(s[|s| - 1]))
    ensures RStrip(s + gap) == s
    decreases gap
  {
    if gap == [] {
      assert s + gap == s;
    } else {
      assert (s + gap)[..|s + gap| - 1] == s + gap[..|gap| - 1];
      StripRest(s, gap[..|gap| - 1]);
    }
  }

  lemma NamedHasParts(t: string) returns (u: string, gap: string, name: string)
    requires Named(t, DropWord(t))
    ensures t == u + (gap + name) && AggWord(u) && name != [] && Tag(gap, name)
  {
    var h := DropWord(t);
    u := RStrip(h);
    DropRest(t);
    RStripPrefix(h);
    gap, name := h[|u|..], t[|h|..];
    TwoCuts(t, |u|, |h|);
  }

  lemma TwoCuts(t: string, i: nat, j: nat)
    requires i <= j <= |t|
    ensures t == t[..i] + (t[..j][i..] + t[j..]) && t[..j][..i] == t[..i]
  {
  }

  lemma PartsNamed(u: string, gap: string, name: string)
    requires AggWord(u) && name != [] && Tag(gap, name)
    ensures Named(u + (gap + name), DropWord(u + (gap + name)))
  {
    var h := u + gap;
    Assoc(u, gap, name);
    assert h[|h| - 1] == gap[|gap| - 1];
    DropName(h, name);
    AggWordEnds(u);
    StripRest(u, gap);
    assert (h + name)[|h|] == name[0];
  }

  lemma TailParts(u: string, gap: string, name: string)
    requires AggWord(u) && Tag(gap, name)
    ensures AggTail(u + (gap + name))
  {
    if name == [] {
      assert u + (gap + name) == u;
    } else {
      PartsNamed(u, gap, name);
    }
  }

  lemma TailHasParts(t: string) returns (u: string, gap: string, name: string)
    requires AggTail(t)
    ensures t == u + (gap + name) && AggWord(u) && Tag(gap, name)
  {
    if AggWord(t) {
      u, gap, name := t, [], [];
      assert t + ([] + []) == t;
    } else {
      DropWordPrefix(t);
      u, gap, name := NamedHasParts(t);
    }
  }

  lemma PartsStrip(u: string, gap: string, name: string, trail: string)
    requires AggWord(u) && Tag(gap, name) && AllSpace(trail)
    ensures RStrip(u + (gap + name) + trail) == u + (gap + name)
  {
    var t := u + (gap + name);
    if name == [] {
      assert t == u;
      AggWordEnds(u);
    } else {
      assert t[|t| - 1] == name[|name| - 1];
      WordSolid(name[|name| - 1]);
    }
    StripRest(t, trail);
  }

  /** The scanner's test on its buffer, whitespace collapsed, is that condition on the
      header's own text. */
  lemma OpensAggregateExact(head: string)
    ensures AggTail(RStrip(Collapse([], head))) <==> OpensAggregate(head)
  {
    AggCollapse(head);
    if AggTail(RStrip(head)) { TailOpens(head); }
    forall before, word, gap, name, trail | Opens(head, before, word, gap, name, trail) ensures AggTail(RStrip(head)) {
      EndsWord(before + word, before, word);
      PartsStrip(before + word, gap, name, trail);
      TailParts(before + word, gap, name);
    }
  }

  lemma TailOpens(head: string)
    requires AggTail(RStrip(head))
    ensures OpensAggregate(head)
  {
    var t := RStrip(head);
    RStripPrefix(head);
    var u, gap, name := TailHasParts(t);
    var before, word := WordHasEnds(u);
    assert Opens(head, before, word, gap, name, head[|t|..]);
  }

  // ------------------------------------------------------------------- linkage

  /** The text in front of a brace opens a linkage specification: it ends, up to
      whitespace, in `extern`, whitespace and `"C"`. */
  ghost predicate OpensLinkage(head: string) { exists before, gap, trail :: Links(head, before, gap, trail) }

  ghost predicate Links(head: string, before: string, gap: string, trail: string) {
    && head == before + "extern" + (gap + "\"C\"") + trail
    && Edge(before) && gap != [] && AllSpace(gap) && AllSpace(trail)
  }

  /** What the recogniser asks of the buffer without its last whitespace. */
  predicate LinkTail(t: string) {
    EndsWith(t, QUOTED_C) && LinkWord(t[..|t| - 3])
  }

  predicate LinkWord(q: string) { |RStrip(q)| < |q| && WordTail(RStrip(q), EXTERN) }

  lemma LinkTailExact(buf: string)
    ensures ExternCTail(buf).Some? <==> LinkTail(RStrip(buf))
  {
    LinkCutExact(RStrip(buf));
  }

  lemma LinkCutExact(t: string)
    ensures (if !EndsWith(t, QUOTED_C) then None else ExternTail(t[..|t| - 3])).Some? <==> LinkTail(t)
  {
    if EndsWith(t, QUOTED_C) { LinkWordExact(t[..|t| - 3]); }
  }

  lemma LinkWordExact(q: string)
    ensures ExternTail(q).Some? <==> LinkWord(q)
  {
    RStripPrefix(q);
  }

  lemma LinkWordCollapse(q: string)
    ensures LinkWord(Collapse([], q)) <==> LinkWord(q)
  {
    WordsSolid();
    StripCollapse(q);
    WordTailCollapse(RStrip(q), EXTERN);
    if WordTail(RStrip(q), EXTERN) {
      assert |EXTERN| == 6;
      BlankCollapse(q);
    }
  }

  lemma LinkTailCollapse(t: string)
    ensures LinkTail(Collapse([], t)) <==> LinkTail(t)
  {
    QuotedSolid(QUOTED_C);
    EndsCollapse(t, QUOTED_C);
    if EndsWith(t, QUOTED_C) {
      CutEnd(Collapse([], t[..|t| - 3]), QUOTED_C);
      LinkWordCollapse(t[..|t| - 3]);
    }
  }

  lemma QuotedSolid(q: string)
    requires q == "\"C\""
    ensures Solid(q) && |q| == 3
  {
  }

  lemma CutEnd(a: string, b: string)
    ensures (a + b)[..|a + b| - |b|] == a
  {
  }

  lemma LinkageCollapse(head: string)
    ensures ExternCTail(Collapse([], head)).Some? <==> ExternCTail(head).Some?
  {
    LinkTailExact(head);
    LinkTailExact(Collapse([], head));
    StripCollapse(head);
    LinkTailCollapse(RStrip(head));
  }

  lemma LinksRead(before: string, gap: string, trail: string)
    requires Edge(before) && gap != [] && AllSpace(gap) && AllSpace(trail)
    ensures ExternCTail(before + "extern" + (gap + "\"C\"") + trail) == Some(if before == [] then 0 else |before| - 1)
  {
    var u := before + EXTERN;
    var q := u + gap;
    Assoc(u, gap, QUOTED_C);
    LinkPieces(u, gap, q + QUOTED_C, trail);
    assert u[..|u| - 6] == before && u[|u| - 6..] == EXTERN;
    WordEdge(u, EXTERN);
  }

  lemma LinkPieces(u: string, gap: string, t: string, trail: string)
    requires u != [] && !IsSpace(u[|u| - 1]) && AllSpace(gap) && AllSpace(trail) && t == u + gap + QUOTED_C
    ensures RStrip(t + trail) == t && EndsWith(t, QUOTED_C) && t[..|t| - 3] == u + gap && RStrip(u + gap) == u
  {
    assert QUOTED_C[2] == '"' && t[|t| - 1] == QUOTED_C[2];
    StripRest(t, trail);
    StripRest(u, gap);
    assert t[|t| - 3..] == QUOTED_C;
  }

  lemma ReadsLinks(head: string)
    requires ExternCTail(head).Some?
    ensures OpensLinkage(head)
  {
    LinkTailExact(head);
    var t := RStrip(head);
    var q := t[..|t| - 3];
    var u := RStrip(q);
    RStripPrefix(head);
    RStripPrefix(q);
    WordEdge(u, EXTERN);
    LinkJoins(head, t, q, u);
  }

  lemma LinkJoins(head: string, t: string, q: string, u: string)
    requires t <= head && AllSpace(head[|t|..]) && EndsWith(t, QUOTED_C) && q == t[..|t| - 3]
    requires u <= q && u != q && AllSpace(q[|u|..]) && EndsWith(u, EXTERN) && Edge(u[..|u| - 6])
    ensures OpensLinkage(head)
  {
    var before, gap, trail := u[..|u| - 6], q[|u|..], head[|t|..];
    assert u == before + EXTERN;
    assert q == u + gap;
    assert t == q + QUOTED_C;
    assert head == t + trail;
    Assoc(u, gap, QUOTED_C);
    assert Links(head, before, gap, trail);
  }

  /** The recogniser finds the linkage words on its buffer if and only if the header's own
      text ends in them, and drops them with the one blank before them. */
  lemma OpensLinkageExact(head: string)
    ensures ExternCTail(Collapse([], head)).Some? <==> OpensLinkage(head)
    ensures forall before, gap, trail :: Links(head, before, gap, trail) ==> ExternCTail(head) == Some(if before == [] then 0 else |before| - 1)
  {
    LinkageCollapse(head);
    if ExternCTail(head).Some? { ReadsLinks(head); }
    forall before, gap, trail | Links(head, before, gap, trail) ensures ExternCTail(head) == Some(if before == [] then 0 else |before| - 1) {
      LinksRead(before, gap, trail);
    }
  }
}
