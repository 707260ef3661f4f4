/** Folding changelog fragments into the `## [Unreleased]` section. */
module Fold {
  import opened PyText

  const Unreleased := "## [Unreleased]"
  const Heading := "## ["

  predicate Starts(line: string, prefix: string) { |prefix| <= |line| && line[..|prefix|] == prefix }

  predicate Blank(line: string) { AllSpace(line) }

  /** The first unreleased header, and the next heading after it or the end. */
  ghost predicate Section(lines: seq<string>, start: nat, end: nat) {
    && start < end <= |lines|
    && Starts(lines[start], Unreleased)
    && (forall i :: 0 <= i < start ==> !Starts(lines[i], Unreleased))
    && (forall i :: start < i < end ==> !Starts(lines[i], Heading))
    && (end < |lines| ==> Starts(lines[end], Heading))
  }

  lemma SectionUnique(lines: seq<string>, s: nat, e: nat, s2: nat, e2: nat)
    requires Section(lines, s, e) && Section(lines, s2, e2)
    ensures s == s2 && e == e2
  {
  }

  method FindUnreleased(lines: seq<string>) returns (r: Option<(nat, nat)>)
    ensures r.None? <==> forall i :: 0 <= i < |lines| ==> !Starts(lines[i], Unreleased)
    ensures r.Some? ==> Section(lines, r.value.0, r.value.1)
  {
    var start := 0;
    while start < |lines| && !Starts(lines[start], Unreleased)
      invariant start <= |lines| && forall i :: 0 <= i < start ==> !Starts(lines[i], Unreleased)
    {
      start := start + 1;
    }
    if start == |lines| { return None; }
    for j := start + 1 to |lines|
      invariant forall i :: start < i < j ==> !Starts(lines[i], Heading)
    {
      if Starts(lines[j], Heading) { return Some((start, j)); }
    }
    r := Some((start, |lines|));
  }

  // ------------------------------------------------------------- blank trimming

  function TrimEnd(xs: seq<string>): (r: seq<string>)
    ensures |r| <= |xs| && (r != [] ==> !Blank(r[|r| - 1]))
  {
    if xs != [] && Blank(xs[|xs| - 1]) then TrimEnd(xs[..|xs| - 1]) else xs
  }

  function TrimStart(xs: seq<string>): (r: seq<string>)
    ensures |r| <= |xs| && (r != [] ==> !Blank(r[0]))
  {
    if xs != [] && Blank(xs[0]) then TrimStart(xs[1..]) else xs
  }

  lemma {:induction false} TrimEndAppend(a: seq<string>, b: seq<string>)
    ensures TrimEnd(a + b) == if TrimEnd(b) == [] then TrimEnd(a) else a + TrimEnd(b)
    decreases |b|
  {
    if b == [] {
      assert a + b == a;
    } else {
      var n := |b| - 1;
      assert (a + b)[..|a + b| - 1] == a + b[..n] && (a + b)[|a + b| - 1] == b[n];
      if Blank(b[n]) { TrimEndAppend(a, b[..n]); }
    }
  }

  lemma {:induction false} TrimEndPrefix(xs: seq<string>)
    ensures TrimEnd(xs) <= xs
    decreases |xs|
  {
    if xs != [] && Blank(xs[|xs| - 1]) { TrimEndPrefix(xs[..|xs| - 1]); }
  }

  lemma {:induction false} TrimStartSuffix(xs: seq<string>)
    ensures TrimStart(xs) == xs[|xs| - |TrimStart(xs)|..]
  {
    if xs != [] && Blank(xs[0]) { TrimStartSuffix(xs[1..]); }
  }

  lemma {:induction false} TrimKeeps(xs: seq<string>, i: nat)
    requires i < |xs| && !Blank(xs[i])
    ensures |TrimEnd(xs)| > i
    decreases |xs|
  {
    if Blank(xs[|xs| - 1]) { TrimKeeps(xs[..|xs| - 1], i); }
  }

  lemma {:induction false} TrimStartKeeps(xs: seq<string>, i: nat)
    requires i < |xs| && !Blank(xs[i])
    ensures |TrimStart(xs)| >= |xs| - i
  {
    if Blank(xs[0]) { TrimStartKeeps(xs[1..], i - 1); }
  }

  lemma TrimEndAgain(b: seq<string>)
    ensures TrimEnd(TrimEnd(b) + [""]) == TrimEnd(b)
  {
    assert TrimEnd([""]) == [];
    TrimEndAppend(TrimEnd(b), [""]);
  }

  // ------------------------------------------------------------------- the fold

  /** The lines of all fragments, one empty line between two of them. */
  function Inserted(frags: seq<string>): (r: seq<string>)
    ensures r == [] <==> frags == []
  {
    if frags == [] then []
    else if |frags| == 1 then SplitOn(frags[0], '\n')
    else SplitOn(frags[0], '\n') + [""] + Inserted(frags[1..])
  }

  /** New lines above old ones, one empty line between when both are there. */
  function Stack(top: seq<string>, below: seq<string>): seq<string> {
    top + (if top != [] && below != [] then [""] else []) + below
  }

  function NewSection(header: string, frags: seq<string>, body: seq<string>): seq<string> {
    TrimEnd([header, ""] + Stack(Inserted(frags), TrimStart(body))) + [""]
  }

  function FoldAt(lines: seq<string>, start: nat, end: nat, frags: seq<string>): seq<string>
    requires start < end <= |lines|
  {
    lines[..start] + NewSection(lines[start], frags, lines[start + 1..end]) + lines[end..]
  }

  lemma {:induction false} InsertedAppend(f: seq<string>, g: seq<string>)
    ensures Inserted(f + g) == Stack(Inserted(f), Inserted(g))
  {
    if f == [] {
      assert f + g == g;
    } else if |f| == 1 {
      assert g != [] ==> (f + g)[1..] == g;
      assert g == [] ==> f + g == f;
    } else {
      assert (f + g)[0] == f[0] && (f + g)[1..] == f[1..] + g;
      InsertedAppend(f[1..], g);
      assert Inserted(f + g) == SplitOn(f[0], '\n') + [""] + Stack(Inserted(f[1..]), Inserted(g));
    }
  }

  method FoldSection(lines: seq<string>, frags: seq<string>) returns (r: Option<seq<string>>)
    ensures r.None? <==> forall i :: 0 <= i < |lines| ==> !Starts(lines[i], Unreleased)
    ensures r.Some? ==> exists s, e :: Section(lines, s, e) && r.value == FoldAt(lines, s, e, frags)
  {
    var found := FindUnreleased(lines);
    if found.None? { return None; }
    var (start, end) := found.value;
    var section := BuildSection(lines[start], frags, lines[start + 1..end]);
    r := Some(lines[..start] + section + lines[end..]);
  }

  method BuildSection(header: string, frags: seq<string>, old_body: seq<string>) returns (section: seq<string>)
    ensures section == NewSection(header, frags, old_body)
  {
    var body := PopLeading(old_body);
    var inserted := InsertAll(frags);
    section := [header, ""] + inserted;
    section := section + (if inserted != [] && body != [] then [""] else []) + body;
    StackReads([header, ""], inserted, body, section);
    section := PopBlanks(section);
    section := section + [""];
  }

  lemma StackReads(head: seq<string>, top: seq<string>, below: seq<string>, section: seq<string>)
    requires section == head + top + (if top != [] && below != [] then [""] else []) + below
    ensures section == head + Stack(top, below)
  {
  }

  method PopLeading(lines: seq<string>) returns (body: seq<string>)
    ensures body == TrimStart(lines)
  {
    body := lines;
    while body != [] && Blank(body[0])
      invariant TrimStart(body) == TrimStart(lines)
      decreases |body|
    {
      body := body[1..];
    }
  }

  method PopBlanks(lines: seq<string>) returns (section: seq<string>)
    ensures section == TrimEnd(lines)
  {
    section := lines;
    while section != [] && Blank(section[|section| - 1])
      invariant TrimEnd(section) == TrimEnd(lines)
      decreases |section|
    {
      section := section[..|section| - 1];
    }
  }

  method InsertAll(frags: seq<string>) returns (inserted: seq<string>)
    ensures inserted == Inserted(frags)
  {
    inserted := [];
    for i := 0 to |frags|
      invariant inserted == Inserted(frags[..i])
    {
      assert frags[..i + 1] == frags[..i] + [frags[i]];
      InsertedAppend(frags[..i], [frags[i]]);
      assert Inserted([frags[i]]) == SplitOn(frags[i], '\n');
      if inserted != [] { inserted := inserted + [""]; }
      inserted := inserted + SplitOn(frags[i], '\n');
    }
    assert frags[..|frags|] == frags;
  }

  // ------------------------------------------------------------------- the law

  /** A section as it reads on the page: content with no blank line at its end. */
  function Framed(header: string, content: seq<string>): seq<string> {
    [header, ""] + content + Foot(content)
  }

  function Foot(content: seq<string>): seq<string> { if content == [] then [] else [""] }

  lemma DropHead<T>(a: T, b: T, x: seq<T>, y: seq<T>)
    ensures ([a, b] + x + y)[1..] == [b] + (x + y)
  {
  }

  lemma DropPrefix<T>(a: seq<T>, b: T, c: T, x: seq<T>, y: seq<T>, z: seq<T>)
    ensures var out := a + ([b, c] + x + y) + z;
            |out| >= |a| + 2 && out[|a|] == b && out[|a| + 1] == c && out[|a| + 2..] == x + (y + z)
  {
    Assoc([b, c], x, y);
    Assoc([b, c], x + y, z);
    Assoc(x, y, z);
    Assoc(a, [b, c] + x + y, z);
    Assoc(a, [b, c], x + (y + z));
    assert |a + [b, c]| == |a| + 2;
  }

  /** The new section's content. */
  function Content(frags: seq<string>, body: seq<string>): seq<string> {
    TrimEnd(Stack(Inserted(frags), TrimStart(body)))
  }

  lemma HeaderNotBlank(header: string)
    requires Starts(header, Unreleased)
    ensures !Blank(header)
  {
    assert header[0] == header[..|Unreleased|][0] == '#';
  }

  lemma UnderHeader(header: string, content: seq<string>)
    requires !Blank(header)
    ensures TrimEnd([header, ""] + content) + [""] == Framed(header, TrimEnd(content))
  {
    TrimEndAppend([header, ""], content);
    TrimEndAppend([header], [""]);
    assert [header] + [""] == [header, ""];
    assert TrimEnd([""]) == [];
  }

  lemma SectionForm(header: string, frags: seq<string>, body: seq<string>)
    requires !Blank(header)
    ensures NewSection(header, frags, body) == Framed(header, Content(frags, body))
  {
    UnderHeader(header, Stack(Inserted(frags), TrimStart(body)));
  }

  lemma TrimStartOver(xs: seq<string>)
    ensures TrimStart([""] + xs) == TrimStart(xs)
  {
    assert ([""] + xs)[1..] == xs;
  }

  /** What a second fold finds as the existing body. */
  lemma BodySeen(header: string, t: seq<string>)
    requires t != [] ==> !Blank(t[|t| - 1])
    ensures TrimStart(Framed(header, t)[1..]) == if t == [] then [] else TrimStart(t) + [""]
    ensures t != [] ==> TrimStart(t) != []
  {
    DropHead(header, "", t, Foot(t));
    if t == [] {
      assert t + Foot(t) == [];
      TrimStartOver(t + Foot(t));
    } else {
      TrimStartOver(t + Foot(t));
      TrimStartKeeps(t, |t| - 1);
      TrimStartAppend(t, [""]);
    }
  }

  lemma {:induction false} TrimStartAppend(a: seq<string>, b: seq<string>)
    requires TrimStart(a) != []
    ensures TrimStart(a + b) == TrimStart(a) + b
  {
    assert (a + b)[0] == a[0];
    if Blank(a[0]) {
      assert (a + b)[1..] == a[1..] + b;
      TrimStartAppend(a[1..], b);
    }
  }

  /** A stack whose lower part was trimmed at its end trims to the same lines. */
  lemma StackTrimmed(top: seq<string>, content: seq<string>)
    requires TrimEnd(content) != []
    ensures TrimEnd(Stack(top, TrimEnd(content) + [""])) == Stack(top, TrimEnd(content))
    ensures TrimEnd(Stack(top, content)) == Stack(top, TrimEnd(content))
  {
    var t := TrimEnd(content);
    var head := top + (if top != [] then [""] else []);
    assert Stack(top, content) == head + content;
    assert Stack(top, t + [""]) == head + (t + [""]);
    TrimEndAppend(head, content);
    TrimEndAppend(head, t + [""]);
    TrimEndAgain(content);
  }

  lemma StackAssoc(a: seq<string>, b: seq<string>, c: seq<string>)
    ensures Stack(Stack(a, b), c) == Stack(a, Stack(b, c))
  {
  }

  lemma ContentOneGo(f: seq<string>, g: seq<string>, body: seq<string>)
    ensures Content(g + f, body) == if Content(f, body) == [] then Content(g + f, body) else Stack(Inserted(g), Content(f, body))
    ensures Stack(Inserted(f), TrimStart(body)) == [] ==> Content(g + f, body) == TrimEnd(Inserted(g))
  {
    var top, b := Inserted(g), TrimStart(body);
    InsertedAppend(g, f);
    StackAssoc(top, Inserted(f), b);
    var c := Stack(Inserted(f), b);
    assert c == [] ==> Stack(top, c) == top;
    if TrimEnd(c) != [] { StackTrimmed(top, c); }
  }

  lemma ContentAgain(header: string, t: seq<string>, g: seq<string>)
    requires t != [] ==> !Blank(t[|t| - 1])
    ensures Content(g, Framed(header, t)[1..]) == if t == [] then TrimEnd(Inserted(g)) else Stack(Inserted(g), TrimStart(t))
    ensures t != [] ==> TrimStart(t) != []
  {
    var top := Inserted(g);
    BodySeen(header, t);
    if t == [] {
      assert Stack(top, []) == top;
    } else {
      var d := TrimStart(t);
      StillTrimmed(t);
      StackTrimmed(top, d);
    }
  }

  lemma StillTrimmed(t: seq<string>)
    requires t != [] && !Blank(t[|t| - 1]) && TrimStart(t) != []
    ensures TrimEnd(TrimStart(t)) == TrimStart(t)
  {
    TrimStartSuffix(t);
    var d := TrimStart(t);
    assert d[|d| - 1] == t[|t| - 1];
  }

  /** The content of a fold over a folded section, and of the two folds in one. */
  lemma ContentTwice(header: string, f: seq<string>, g: seq<string>, body: seq<string>)
    ensures var t := Content(f, body);
            && Content(g, Framed(header, t)[1..]) == (if t == [] then TrimEnd(Inserted(g)) else Stack(Inserted(g), TrimStart(t)))
            && (t != [] ==> Content(g + f, body) == Stack(Inserted(g), t) && TrimStart(t) != [])
            && (Stack(Inserted(f), TrimStart(body)) == [] ==> t == [] && Content(g + f, body) == TrimEnd(Inserted(g)))
  {
    ContentAgain(header, Content(f, body), g);
    ContentOneGo(f, g, body);
  }

  lemma FirstLine(frags: seq<string>)
    requires frags != []
    ensures Inserted(frags)[0] == SplitOn(frags[0], '\n')[0]
    ensures SplitOn(frags[0], '\n') <= Inserted(frags)
  {
  }

  /** Folding the section twice, on its lines. */
  lemma SectionTwice(header: string, f: seq<string>, g: seq<string>, body: seq<string>)
    requires !Blank(header)
    requires f != [] ==> !Blank(SplitOn(f[0], '\n')[0])
    ensures NewSection(header, g, NewSection(header, f, body)[1..]) == NewSection(header, g + f, body)
  {
    var c := Stack(Inserted(f), TrimStart(body));
    var t := Content(f, body);
    if f != [] { FirstLine(f); }
    if c != [] {
      TrimKeeps(c, 0);
      TrimEndPrefix(c);
      assert t[0] == c[0];
    }
    SectionForm(header, f, body);
    SectionForm(header, g + f, body);
    SectionForm(header, g, Framed(header, t)[1..]);
    ContentTwice(header, f, g, body);
  }

  lemma Pieces(pre: seq<string>, sec: seq<string>, post: seq<string>)
    requires sec != []
    ensures var out := pre + sec + post;
            && out[..|pre|] == pre && out[|pre|] == sec[0] && out[|pre| + 1..|pre| + |sec|] == sec[1..]
            && out[|pre| + |sec|..] == post
  {
    assert pre + sec + post == pre + (sec + post);
  }

  /** The folded file has the same section, at the same place. */
  lemma SectionAfter(lines: seq<string>, s: nat, e: nat, frags: seq<string>)
    requires Section(lines, s, e) && NoHeading(frags)
    ensures Section(FoldAt(lines, s, e, frags), s, s + |NewSection(lines[s], frags, lines[s + 1..e])|)
  {
    var pre, body, post := lines[..s], lines[s + 1..e], lines[e..];
    HeaderNotBlank(lines[s]);
    assert forall x :: x in body ==> !Starts(x, Heading);
    SectionAfterIn(pre, lines[s], frags, body, post);
    assert |pre| == s;
  }

  lemma SectionAfterIn(pre: seq<string>, header: string, frags: seq<string>, body: seq<string>, post: seq<string>)
    requires !Blank(header) && Starts(header, Unreleased) && NoHeading(frags)
    requires forall i :: 0 <= i < |pre| ==> !Starts(pre[i], Unreleased)
    requires forall x :: x in body ==> !Starts(x, Heading)
    requires post != [] ==> Starts(post[0], Heading)
    ensures var sec := NewSection(header, frags, body); Section(pre + sec + post, |pre|, |pre| + |sec|)
  {
    SectionForm(header, frags, body);
    ContentLines(frags, body);
    SectionLines(header, Content(frags, body));
    SectionIn(pre, NewSection(header, frags, body), post);
  }

  lemma SectionLines(header: string, t: seq<string>)
    requires forall x :: x in t ==> !Starts(x, Heading)
    ensures var sec := Framed(header, t); forall i :: 1 <= i < |sec| ==> !Starts(sec[i], Heading)
  {
    var sec := Framed(header, t);
    assert forall i :: 2 <= i < 2 + |t| ==> sec[i] == t[i - 2];
  }

  lemma SectionIn(pre: seq<string>, sec: seq<string>, post: seq<string>)
    requires sec != [] && Starts(sec[0], Unreleased)
    requires forall i :: 0 <= i < |pre| ==> !Starts(pre[i], Unreleased)
    requires forall i :: 1 <= i < |sec| ==> !Starts(sec[i], Heading)
    requires post != [] ==> Starts(post[0], Heading)
    ensures Section(pre + sec + post, |pre|, |pre| + |sec|)
  {
    var out := pre + sec + post;
    assert forall i :: |pre| <= i < |pre| + |sec| ==> out[i] == sec[i - |pre|];
  }

  lemma ContentLines(frags: seq<string>, body: seq<string>)
    requires NoHeading(frags) && forall x :: x in body ==> !Starts(x, Heading)
    ensures forall x :: x in Content(frags, body) ==> !Starts(x, Heading)
  {
    var top, low := Inserted(frags), TrimStart(body);
    TrimStartSuffix(body);
    assert forall x :: x in low ==> x in body;
    StackLines(top, low);
    TrimEndPrefix(Stack(top, low));
    assert forall x :: x in TrimEnd(Stack(top, low)) ==> x in Stack(top, low);
  }

  lemma StackLines(top: seq<string>, below: seq<string>)
    ensures forall x :: x in Stack(top, below) ==> x in top || x == "" || x in below
  {
  }

  /** No line of these fragments reads as a heading. */
  ghost predicate NoHeading(frags: seq<string>) { forall x :: x in Inserted(frags) ==> !Starts(x, Heading) }

  lemma FoldOnFold(lines: seq<string>, s: nat, e: nat, f: seq<string>, g: seq<string>)
    requires s < e <= |lines| && !Blank(lines[s])
    ensures var sec := NewSection(lines[s], f, lines[s + 1..e]);
            sec != [] && FoldAt(FoldAt(lines, s, e, f), s, s + |sec|, g) == lines[..s] + NewSection(lines[s], g, sec[1..]) + lines[e..]
  {
    var pre, sec, post := lines[..s], NewSection(lines[s], f, lines[s + 1..e]), lines[e..];
    var out := FoldAt(lines, s, e, f);
    assert sec != [] && sec[0] == lines[s] by { SectionForm(lines[s], f, lines[s + 1..e]); }
    assert |pre| == s && out == pre + sec + post;
    FoldAtPieces(pre, sec, post, g);
    assert FoldAt(out, s, s + |sec|, g) == pre + NewSection(sec[0], g, sec[1..]) + post;
  }

  lemma FoldAtPieces(pre: seq<string>, sec: seq<string>, post: seq<string>, g: seq<string>)
    requires sec != []
    ensures FoldAt(pre + sec + post, |pre|, |pre| + |sec|, g) == pre + NewSection(sec[0], g, sec[1..]) + post
  {
    Pieces(pre, sec, post);
  }

  /** Fold `f`, then fold `g` into the result: one fold of `g` followed by `f`. */
  lemma FoldLaw(lines: seq<string>, s: nat, e: nat, f: seq<string>, g: seq<string>)
    requires Section(lines, s, e) && NoHeading(f)
    requires f != [] ==> !Blank(SplitOn(f[0], '\n')[0])
    ensures exists e2 :: Section(FoldAt(lines, s, e, f), s, e2)
                         && FoldAt(FoldAt(lines, s, e, f), s, e2, g) == FoldAt(lines, s, e, g + f)
  {
    HeaderNotBlank(lines[s]);
    var body := lines[s + 1..e];
    SectionTwice(lines[s], f, g, body);
    SectionAfter(lines, s, e, f);
    FoldOnFold(lines, s, e, f, g);
  }

  /** The law needs the first fragment folded to open with a non-blank line: a fragment
      with content further down, which the loader accepts, loses its leading blank
      lines to the next fold. */
  lemma FoldLawExact(lines: seq<string>, s: nat, e: nat, f: seq<string>, g: seq<string>)
    requires Section(lines, s, e) && NoHeading(f)
    requires f != [] && TrimEnd(SplitOn(f[0], '\n')) != []
    ensures (exists e2 :: Section(FoldAt(lines, s, e, f), s, e2)
                         && FoldAt(FoldAt(lines, s, e, f), s, e2, g) == FoldAt(lines, s, e, g + f))
            <==> !Blank(SplitOn(f[0], '\n')[0])
  {
    if !Blank(SplitOn(f[0], '\n')[0]) {
      FoldLaw(lines, s, e, f, g);
    } else {
      FoldShrinks(lines, s, e, f, g);
    }
  }

  lemma FoldShrinks(lines: seq<string>, s: nat, e: nat, f: seq<string>, g: seq<string>)
    requires Section(lines, s, e) && NoHeading(f)
    requires f != [] && Blank(SplitOn(f[0], '\n')[0]) && TrimEnd(SplitOn(f[0], '\n')) != []
    ensures !exists e2 :: Section(FoldAt(lines, s, e, f), s, e2)
                         && FoldAt(FoldAt(lines, s, e, f), s, e2, g) == FoldAt(lines, s, e, g + f)
  {
    SectionAfter(lines, s, e, f);
    HeaderNotBlank(lines[s]);
    FoldOnFold(lines, s, e, f, g);
    var body := lines[s + 1..e];
    var sec := NewSection(lines[s], f, body);
    SectionShrinks(lines[s], f, g, body);
    forall e2 | Section(FoldAt(lines, s, e, f), s, e2)
      ensures FoldAt(FoldAt(lines, s, e, f), s, e2, g) != FoldAt(lines, s, e, g + f)
    {
      SectionUnique(FoldAt(lines, s, e, f), s, e2, s, s + |sec|);
    }
  }

  lemma SectionShrinks(header: string, f: seq<string>, g: seq<string>, body: seq<string>)
    requires !Blank(header) && f != [] && Blank(SplitOn(f[0], '\n')[0]) && TrimEnd(SplitOn(f[0], '\n')) != []
    ensures |NewSection(header, g, NewSection(header, f, body)[1..])| < |NewSection(header, g + f, body)|
  {
    var t := Content(f, body);
    FirstLine(f);
    LeadingBlank(SplitOn(f[0], '\n'), Inserted(f), TrimStart(body));
    ContentTwice(header, f, g, body);
    StackShrinks(Inserted(g), t);
    ShorterFrame(header, f, g, body);
  }

  lemma ShorterFrame(header: string, f: seq<string>, g: seq<string>, body: seq<string>)
    requires !Blank(header)
    requires var again := Content(g, Framed(header, Content(f, body))[1..]); again != [] && |again| < |Content(g + f, body)|
    ensures |NewSection(header, g, NewSection(header, f, body)[1..])| < |NewSection(header, g + f, body)|
  {
    var t := Content(f, body);
    SectionForm(header, f, body);
    SectionForm(header, g + f, body);
    SectionForm(header, g, Framed(header, t)[1..]);
  }

  lemma LeadingBlank(own: seq<string>, ins: seq<string>, rest: seq<string>)
    requires own != [] && own <= ins && Blank(own[0]) && TrimEnd(own) != []
    ensures var t := TrimEnd(Stack(ins, rest)); t != [] && Blank(t[0])
  {
    var c := Stack(ins, rest);
    var last := |TrimEnd(own)| - 1;
    TrimEndPrefix(own);
    TrimEndPrefix(c);
    assert c[last] == own[last] == TrimEnd(own)[last];
    TrimKeeps(c, last);
    assert c[0] == own[0];
  }

  lemma StackShrinks(top: seq<string>, t: seq<string>)
    requires t != [] && Blank(t[0]) && TrimStart(t) != []
    ensures Stack(top, TrimStart(t)) != [] && |Stack(top, TrimStart(t))| < |Stack(top, t)|
  {
  }

  /** Folding nothing twice is folding nothing once. */
  lemma FoldNothingTwice(lines: seq<string>, s: nat, e: nat)
    requires Section(lines, s, e)
    ensures exists e2 :: Section(FoldAt(lines, s, e, []), s, e2)
                         && FoldAt(FoldAt(lines, s, e, []), s, e2, []) == FoldAt(lines, s, e, [])
  {
    var none: seq<string> := [];
    FoldLaw(lines, s, e, none, none);
    assert none + none == none;
  }

  // -------------------------------------------------------------- nothing is lost

  function NonBlank(xs: seq<string>): seq<string> {
    if xs == [] then [] else (if Blank(xs[0]) then [] else [xs[0]]) + NonBlank(xs[1..])
  }

  lemma {:induction false} NonBlankAppend(a: seq<string>, b: seq<string>)
    ensures NonBlank(a + b) == NonBlank(a) + NonBlank(b)
  {
    if a == [] {
      assert a + b == b;
    } else {
      assert (a + b)[0] == a[0] && (a + b)[1..] == a[1..] + b;
      NonBlankAppend(a[1..], b);
    }
  }

  lemma {:induction false} NonBlankTrimEnd(xs: seq<string>)
    ensures NonBlank(TrimEnd(xs)) == NonBlank(xs)
  {
    if xs != [] && Blank(xs[|xs| - 1]) {
      var n := |xs| - 1;
      assert xs == xs[..n] + [xs[n]];
      NonBlankAppend(xs[..n], [xs[n]]);
      assert NonBlank([xs[n]]) == [];
      NonBlankTrimEnd(xs[..n]);
    }
  }

  lemma {:induction false} NonBlankTrimStart(xs: seq<string>)
    ensures NonBlank(TrimStart(xs)) == NonBlank(xs)
  {
    if xs != [] && Blank(xs[0]) { NonBlankTrimStart(xs[1..]); }
  }

  lemma NonBlankStack(ins: seq<string>, rest: seq<string>)
    ensures NonBlank(Stack(ins, rest)) == NonBlank(ins) + NonBlank(rest)
  {
    var gap := if ins != [] && rest != [] then [""] else [];
    NonBlankAppend(ins + gap, rest);
    NonBlankAppend(ins, gap);
    assert NonBlank(gap) == [];
    assert NonBlank(ins) + [] == NonBlank(ins);
  }

  lemma NonBlankSection(header: string, frags: seq<string>, body: seq<string>)
    requires !Blank(header)
    ensures NonBlank(NewSection(header, frags, body)) == [header] + NonBlank(Inserted(frags)) + NonBlank(body)
  {
    var content := Stack(Inserted(frags), TrimStart(body));
    NonBlankStack(Inserted(frags), TrimStart(body));
    NonBlankTrimStart(body);
    NonBlankUnder(header, content);
  }

  lemma NonBlankUnder(header: string, content: seq<string>)
    requires !Blank(header)
    ensures NonBlank(TrimEnd([header, ""] + content) + [""]) == [header] + NonBlank(content)
  {
    NonBlankAppend(TrimEnd([header, ""] + content), [""]);
    assert NonBlank([""]) == [];
    NonBlankTrimEnd([header, ""] + content);
    NonBlankAppend([header, ""], content);
    assert NonBlank([header, ""]) == [header] by { assert [header, ""][1..] == [""]; }
  }

  /** Every non-blank line survives, once and in order: what was above the section, the
      header, the fragments, the old entries, what was below. */
  lemma FoldConserves(lines: seq<string>, s: nat, e: nat, frags: seq<string>)
    requires Section(lines, s, e)
    ensures NonBlank(FoldAt(lines, s, e, frags)) ==
            NonBlank(lines[..s]) + ([lines[s]] + NonBlank(Inserted(frags)) + NonBlank(lines[s + 1..e])) + NonBlank(lines[e..])
  {
    HeaderNotBlank(lines[s]);
    var body := lines[s + 1..e];
    var sec := NewSection(lines[s], frags, body);
    NonBlankSection(lines[s], frags, body);
    NonBlankAppend(lines[..s] + sec, lines[e..]);
    NonBlankAppend(lines[..s], sec);
  }

  lemma ContentOpens(ins: seq<string>, rest: seq<string>)
    requires rest != [] ==> !Blank(rest[0])
    ensures (if rest != [] then ins else TrimEnd(ins)) <= TrimEnd(Stack(ins, rest))
  {
    if rest != [] {
      TrimKeeps(rest, 0);
      var low := (if ins != [] then [""] else []) + rest;
      assert Stack(ins, rest) == ins + low;
      TrimEndAppend(if ins != [] then [""] else [], rest);
      TrimEndAppend(ins, low);
    } else {
      assert Stack(ins, rest) == ins;
    }
  }

  /** Verbatim: the fragments' lines stand right below the header and its blank line, in
      order, blank lines included; only when the section held nothing else are blanks at
      their very end dropped. */
  lemma FragmentsVerbatim(lines: seq<string>, s: nat, e: nat, frags: seq<string>)
    requires Section(lines, s, e)
    ensures var out := FoldAt(lines, s, e, frags);
            && |out| >= s + 2 && out[s] == lines[s] && out[s + 1] == ""
            && (if TrimStart(lines[s + 1..e]) != [] then Inserted(frags) else TrimEnd(Inserted(frags))) <= out[s + 2..]
  {
    HeaderNotBlank(lines[s]);
    assert |lines[..s]| == s;
    VerbatimIn(lines[..s], lines[s], frags, lines[s + 1..e], lines[e..]);
  }

  lemma VerbatimIn(pre: seq<string>, header: string, frags: seq<string>, body: seq<string>, post: seq<string>)
    requires !Blank(header)
    ensures var out := pre + NewSection(header, frags, body) + post;
            && |out| >= |pre| + 2 && out[|pre|] == header && out[|pre| + 1] == ""
            && (if TrimStart(body) != [] then Inserted(frags) else TrimEnd(Inserted(frags))) <= out[|pre| + 2..]
  {
    var t := Content(frags, body);
    SectionForm(header, frags, body);
    DropPrefix(pre, header, "", t, Foot(t), post);
    assert (if TrimStart(body) != [] then Inserted(frags) else TrimEnd(Inserted(frags))) <= t by {
      ContentOpens(Inserted(frags), TrimStart(body));
    }
  }
}
