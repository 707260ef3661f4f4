/** What the declaration splitter promises: it recovers the declarations of any
    printed header, and it loses and invents no text. */
module AbiFlattenLaws {
  import opened PyText
  import opened AbiFlatten
  import opened AbiTails

  // ------------------------------------------------------ whitespace collapsing

  /** `re.sub(r"\s+", " ", s)`. */
  function Squeeze(s: string): string {
    if s == [] then []
    else if IsSpace(s[0]) && |s| > 1 && IsSpace(s[1]) then Squeeze(s[1..])
    else [if IsSpace(s[0]) then ' ' else s[0]] + Squeeze(s[1..])
  }

  /** The snapshot's own `normalise`. */
  function Normalise(s: string): string { Strip(Squeeze(s)) }

  function Unlead(buf: string, q: string): string {
    if q != [] && q[0] == ' ' && (buf == [] || buf[|buf| - 1] == ' ') then q[1..] else q
  }

  lemma {:induction false} SqueezeHead(s: string)
    ensures s != [] <==> Squeeze(s) != []
    ensures s != [] ==> Squeeze(s)[0] == if IsSpace(s[0]) then ' ' else s[0]
  {
    if s != [] && IsSpace(s[0]) && |s| > 1 && IsSpace(s[1]) { SqueezeHead(s[1..]); }
  }

  lemma FeedText(buf: string, c: char, q: string)
    requires !IsSpace(c)
    ensures Feed(buf, c) + Unlead(Feed(buf, c), q) == buf + Unlead(buf, [c] + q)
  {
    assert c != ' ';
    assert (buf + [c]) + q == buf + ([c] + q);
  }

  lemma FeedInsideRun(buf: string, c: char, q: string)
    requires IsSpace(c) && q != [] && q[0] == ' '
    ensures Feed(buf, c) + Unlead(Feed(buf, c), q) == buf + Unlead(buf, q)
  {
    if buf != [] && buf[|buf| - 1] != ' ' {
      var nx := buf + " ";
      assert Feed(buf, c) == nx;
      assert Unlead(nx, q) == q[1..];
      assert nx + q[1..] == buf + q;
    }
  }

  lemma FeedRunEnd(buf: string, c: char, q: string)
    requires IsSpace(c) && (q == [] || q[0] != ' ')
    ensures Feed(buf, c) + Unlead(Feed(buf, c), q) == buf + Unlead(buf, [' '] + q)
  {
    if buf != [] && buf[|buf| - 1] != ' ' {
      assert (buf + " ") + q == buf + ([' '] + q);
    } else {
      assert ([' '] + q)[1..] == q;
    }
  }

  lemma {:induction false} CollapseIsSqueeze(buf: string, s: string)
    ensures Collapse(buf, s) == buf + Unlead(buf, Squeeze(s))
    decreases s
  {
    if s == [] {
      assert buf + [] == buf;
    } else {
      CollapseIsSqueeze(Feed(buf, s[0]), s[1..]);
      SqueezeHead(s[1..]);
      var q := Squeeze(s[1..]);
      if !IsSpace(s[0]) {
        FeedText(buf, s[0], q);
      } else if |s| > 1 && IsSpace(s[1]) {
        FeedInsideRun(buf, s[0], q);
      } else {
        FeedRunEnd(buf, s[0], q);
      }
    }
  }

  lemma {:induction false} StripLead(q: string)
    ensures Strip([' '] + q) == Strip(q)
  {
    var s := [' '] + q;
    if q == [] {
      assert s[..0] == [];
      assert RStrip(s) == [];
    } else if IsSpace(q[|q| - 1]) {
      assert s[..|s| - 1] == [' '] + q[..|q| - 1];
      StripLead(q[..|q| - 1]);
    } else {
      assert RStrip(s) == s && RStrip(q) == q;
      assert s[1..] == q;
    }
  }

  /** A buffer fed from empty is the normalised text, up to a trailing space. */
  lemma CollapseNormalises(s: string)
    ensures Strip(Collapse([], s)) == Normalise(s)
  {
    CollapseIsSqueeze([], s);
    var q := Squeeze(s);
    assert [] + Unlead([], q) == Unlead([], q);
    if q != [] && q[0] == ' ' {
      assert q == [' '] + q[1..];
      StripLead(q[1..]);
    }
  }

  // ------------------------------------------------- headers and their printing

  /** The three declaration shapes of a public header. */
  datatype Decl =
    | Prototype(head: string)                               // head;
    | Aggregate(head: string, body: string, tail: string)   // head { body } tail;
    | Inline(head: string, body: string)                    // head { body }

  datatype Item =
    | Gap(space: string)
    | Public(decl: Decl)
    | Linkage(space1: string, space2: string, body: seq<Item>)

  function Text(d: Decl): string {
    match d
    case Prototype(head) => head + ";"
    case Aggregate(head, body, tail) => head + "{" + body + "}" + tail + ";"
    case Inline(head, body) => head + "{" + body + "}"
  }

  function PrintItem(item: Item): string {
    match item
    case Gap(space) => space
    case Public(d) => Text(d)
    case Linkage(s1, s2, body) => EXTERN + s1 + QUOTED_C + s2 + "{" + Print(body) + "}"
  }

  function Print(items: seq<Item>): string {
    if items == [] then [] else PrintItem(items[0]) + Print(items[1..])
  }

  function DeclaredIn(item: Item): seq<string> {
    match item
    case Gap(_) => []
    case Public(d) => [Normalise(Text(d))]
    case Linkage(_, _, body) => Declared(body)
  }

  function Declared(items: seq<Item>): seq<string> {
    if items == [] then [] else DeclaredIn(items[0]) + Declared(items[1..])
  }

  function Delta(c: char): int {
    if c == '{' || c == '(' || c == '[' then 1 else if c == '}' || c == ')' || c == ']' then -1 else 0
  }

  function Net(s: string): int {
    if s == [] then 0 else Delta(s[0]) + Net(s[1..])
  }

  /** From nesting depth `k`, `s` neither leaves its enclosing bracket nor, while
      outside every bracket, holds a `;` or a brace; a brace never closes back to
      the outside. */
  predicate Stretch(s: string, k: nat) {
    s == [] ||
    (&& (k == 0 ==> s[0] !in ";{})]")
     && (k == 1 ==> s[0] != '}')
     && Stretch(s[1..], k + Delta(s[0])))
  }

  /** No brace of the text opens a linkage specification. */
  ghost predicate NoLinkage(text: string) {
    forall i :: 0 <= i < |text| && text[i] == '{' ==> !OpensLinkage(text[..i])
  }

  ghost predicate WellFormed(d: Decl) {
    && NoLinkage(Text(d))
    && Stretch(d.head, 0) && Net(d.head) == 0
    && match d
       case Prototype(_) => true
       case Aggregate(head, body, tail) =>
         && OpensAggregate(head)
         && Stretch(body, 1) && Net(body) == 0
         && Stretch(tail, 0) && Net(tail) == 0
       case Inline(head, body) =>
         && !OpensAggregate(head)
         && Stretch(body, 1) && Net(body) == 0
  }

  ghost predicate WellFormedItem(item: Item) {
    match item
    case Gap(space) => AllSpace(space)
    case Public(d) => WellFormed(d)
    case Linkage(s1, s2, body) => s1 != [] && AllSpace(s1) && AllSpace(s2) && WellFormedItems(body)
  }

  ghost predicate WellFormedItems(items: seq<Item>) {
    items == [] || (WellFormedItem(items[0]) && WellFormedItems(items[1..]))
  }

  // ------------------------------------------------------------- the round trip

  function Reals(k: nat): seq<Bracket> { if k == 0 then [] else Reals(k - 1) + [Real] }

  lemma {:induction false} RunStretch(st: Scan, s: string, base: seq<Bracket>, k: nat)
    requires st.Scan? && st.depth == k && st.stack == base + Reals(k)
    requires Stretch(s, k) && k + Net(s) >= 0
    requires forall i :: 0 <= i < |s| && s[i] == '{' ==> ExternCTail(Collapse(st.buf, s[..i])).None?
    ensures Run(st, s) == st.(buf := Collapse(st.buf, s), depth := k + Net(s), stack := base + Reals(k + Net(s)))
    decreases s
  {
    if s != [] {
      var c := s[0];
      assert s[..0] == [];
      StretchStep(st, s, base, k);
      CollapsedRest(st.buf, s);
      RunStretch(Step(st, c), s[1..], base, k + Delta(c));
    }
  }

  lemma StretchStep(st: Scan, s: string, base: seq<Bracket>, k: nat)
    requires st.Scan? && st.depth == k && st.stack == base + Reals(k) && s != [] && Stretch(s, k)
    requires s[0] == '{' ==> ExternCTail(st.buf).None?
    ensures k + Delta(s[0]) >= 0
    ensures Step(st, s[0]) == st.(buf := Feed(st.buf, s[0]), depth := k + Delta(s[0]), stack := base + Reals(k + Delta(s[0])))
  {
    var c := s[0];
    if Delta(c) == 1 {
      RealsGrow(base, k);
      OpenStep(st, c);
    } else if Delta(c) == -1 {
      RealsGrow(base, k - 1);
      CloseStep(st, c);
    } else {
      OtherStep(st, c);
    }
  }

  lemma OtherStep(st: Scan, c: char)
    requires st.Scan? && Delta(c) == 0 && (c == ';' ==> st.depth > 0)
    ensures Step(st, c) == st.(buf := Feed(st.buf, c))
  {
  }

  lemma OpenStep(st: Scan, c: char)
    requires st.Scan? && Delta(c) == 1 && (c == '{' ==> st.depth > 0 && ExternCTail(st.buf).None?)
    ensures Step(st, c) == st.(buf := st.buf + [c], depth := st.depth + 1, stack := st.stack + [Real])
  {
  }

  lemma CloseStep(st: Scan, c: char)
    requires st.Scan? && Delta(c) == -1 && st.stack != [] && st.stack[|st.stack| - 1] == Real && (c == '}' ==> st.depth > 1)
    ensures Step(st, c) == st.(buf := st.buf + [c], depth := st.depth - 1, stack := st.stack[..|st.stack| - 1])
  {
  }

  lemma RealsGrow(base: seq<Bracket>, k: nat)
    ensures base + Reals(k) + [Real] == base + Reals(k + 1)
    ensures base + Reals(k + 1) != [] && (base + Reals(k + 1))[..|base + Reals(k + 1)| - 1] == base + Reals(k)
    ensures (base + Reals(k + 1))[|base + Reals(k + 1)| - 1] == Real
  {
  }

  lemma CollapsedRest(buf: string, s: string)
    requires s != [] && forall i :: 0 <= i < |s| && s[i] == '{' ==> ExternCTail(Collapse(buf, s[..i])).None?
    ensures forall i :: 0 <= i < |s[1..]| && s[1..][i] == '{' ==> ExternCTail(Collapse(Feed(buf, s[0]), s[1..][..i])).None?
  {
    forall i | 0 <= i < |s[1..]| && s[1..][i] == '{' ensures ExternCTail(Collapse(Feed(buf, s[0]), s[1..][..i])).None? {
      assert s[i + 1] == '{';
      assert s[..i + 1][0] == s[0] && s[..i + 1][1..] == s[1..][..i];
    }
  }

  /** The piece `b` of a linkage-free text, scanned with the collapsed prefix `a` in the buffer. */
  lemma PieceClear(text: string, a: string, b: string, c: string)
    requires NoLinkage(text) && text == a + b + c
    ensures forall i :: 0 <= i < |b| && b[i] == '{' ==> ExternCTail(Collapse(Collapse([], a), b[..i])).None?
  {
    forall i | 0 <= i < |b| && b[i] == '{' ensures ExternCTail(Collapse(Collapse([], a), b[..i])).None? {
      assert text[|a| + i] == '{';
      assert text[..|a| + i] == a + b[..i];
      CollapseAppend([], a, b[..i]);
      OpensLinkageExact(a + b[..i]);
    }
  }

  /** One stretch of a declaration's text, scanned at its depth. */
  lemma RunPiece(text: string, a: string, b: string, c: string, st: Scan, base: seq<Bracket>, k: nat)
    requires NoLinkage(text) && text == a + b + c
    requires st.Scan? && st.buf == Collapse([], a) && st.depth == k && st.stack == base + Reals(k)
    requires Stretch(b, k) && Net(b) == 0
    ensures Run(st, b) == st.(buf := Collapse([], a + b))
  {
    PieceClear(text, a, b, c);
    RunStretch(st, b, base, k);
    CollapseAppend([], a, b);
  }

  lemma RunOne(st: Scan, c: char)
    ensures Run(st, [c]) == Step(st, c)
  {
    assert [c][1..] == [];
  }

  lemma StripKeeps(s: string, c: char)
    requires !IsSpace(c)
    ensures Strip(s + [c]) != []
  {
    assert RStrip(s + [c]) == s + [c];
    LStripKeeps(s, c);
  }

  lemma {:induction false} LStripKeeps(s: string, c: char)
    requires !IsSpace(c)
    ensures LStrip(s + [c]) != []
  {
    if s != [] && IsSpace(s[0]) {
      assert (s + [c])[1..] == s[1..] + [c];
      LStripKeeps(s[1..], c);
    }
  }

  lemma FlushEnd(st: Scan, text: string, c: char)
    requires st.Scan? && !IsSpace(c) && st.buf == Collapse([], text) + [c]
    ensures Flush(st).decls == st.decls + [Normalise(text + [c])]
  {
    CollapseOne([], text, c);
    CollapseNormalises(text + [c]);
    StripKeeps(Collapse([], text), c);
  }

  function Ready(ds: seq<string>, stack: seq<Bracket>): Scan { Scan(ds, [], 0, false, stack) }

  lemma RunHead(text: string, head: string, rest: string, ds: seq<string>, base: seq<Bracket>)
    requires NoLinkage(text) && text == head + rest
    requires Stretch(head, 0) && Net(head) == 0
    ensures Run(Ready(ds, base), head) == Ready(ds, base).(buf := Collapse([], head))
  {
    var st := Ready(ds, base);
    assert base + Reals(0) == base;
    assert [] + head + rest == text && [] + head == head;
    RunPiece(text, [], head, rest, st, base, 0);
  }

  /** Head, brace and body of a braced declaration. */
  lemma RunBraced(text: string, head: string, body: string, rest: string, ds: seq<string>, base: seq<Bracket>)
    requires NoLinkage(text) && text == head + "{" + body + rest
    requires Stretch(head, 0) && Net(head) == 0 && Stretch(body, 1) && Net(body) == 0
    ensures Run(Ready(ds, base), head + "{" + body)
         == Scan(ds, Collapse([], head + "{" + body), 1, AggTail(RStrip(Collapse([], head))), base + [Real])
  {
    var ready := Ready(ds, base);
    OpenBrace(text, head, body + rest, ds, base);
    assert base + Reals(1) == base + [Real];
    RunAppend(ready, head + "{", body);
    RunBody(text, head + "{", body, rest, Run(ready, head + "{"), ds, base, AggTail(RStrip(Collapse([], head))));
  }

  lemma RunBody(text: string, front: string, body: string, rest: string, inside: Scan, ds: seq<string>, base: seq<Bracket>, agg: bool)
    requires NoLinkage(text) && text == front + body + rest
    requires Stretch(body, 1) && Net(body) == 0
    requires inside == Scan(ds, Collapse([], front), 1, agg, base + Reals(1))
    ensures Run(inside, body) == Scan(ds, Collapse([], front + body), 1, agg, base + Reals(1))
  {
    RunPiece(text, front, body, rest, inside, base, 1);
  }

  lemma OpenBrace(text: string, head: string, rest: string, ds: seq<string>, base: seq<Bracket>)
    requires NoLinkage(text) && text == head + "{" + rest
    requires Stretch(head, 0) && Net(head) == 0
    ensures Run(Ready(ds, base), head + "{")
         == Scan(ds, Collapse([], head + "{"), 1, AggTail(RStrip(Collapse([], head))), base + [Real])
  {
    assert text == head + ("{" + rest);
    RunHead(text, head, "{" + rest, ds, base);
    assert text[|head|] == '{' && text[..|head|] == head;
    OpensLinkageExact(head);
    RunOne(Ready(ds, base).(buf := Collapse([], head)), '{');
    CollapseOne([], head, '{');
    RunAppend(Ready(ds, base), head, "{");
  }

  lemma RunPrototype(head: string, ds: seq<string>, base: seq<Bracket>)
    requires WellFormed(Prototype(head))
    ensures Run(Ready(ds, base), head + ";") == Ready(ds + [Normalise(head + ";")], base)
  {
    var st := Ready(ds, base);
    RunHead(head + ";", head, ";", ds, base);
    var t := Run(st, head);
    RunAppend(st, head, ";");
    RunOne(t, ';');
    FlushEnd(t.(buf := t.buf + ";"), head, ';');
  }

  lemma RunInline(head: string, body: string, ds: seq<string>, base: seq<Bracket>)
    requires WellFormed(Inline(head, body))
    ensures var text := head + "{" + body + "}";
            Run(Ready(ds, base), text) == Ready(ds + [Normalise(text)], base)
  {
    var st := Ready(ds, base);
    var front := head + "{" + body;
    RunBraced(front + "}", head, body, "}", ds, base);
    var t := Run(st, front);
    RunAppend(st, front, "}");
    RunOne(t, '}');
    assert t.stack[..|t.stack| - 1] == base;
    OpensAggregateExact(head);
    FlushEnd(t.(buf := t.buf + "}", depth := 0, stack := base), front, '}');
  }

  lemma RunAggregateBody(head: string, body: string, rest: string, ds: seq<string>, base: seq<Bracket>)
    requires NoLinkage(head + "{" + body + ("}" + rest))
    requires Stretch(head, 0) && Net(head) == 0 && Stretch(body, 1) && Net(body) == 0
    requires AggTail(RStrip(Collapse([], head)))
    ensures var front := head + "{" + body + "}";
            Run(Ready(ds, base), front) == Scan(ds, Collapse([], front), 0, true, base)
  {
    var front := head + "{" + body;
    RunBraced(front + ("}" + rest), head, body, "}" + rest, ds, base);
    var t := Run(Ready(ds, base), front);
    RunAppend(Ready(ds, base), front, "}");
    RunOne(t, '}');
    assert t.stack[..|t.stack| - 1] == base;
    CollapseOne([], front, '}');
  }

  lemma RunTail(front: string, tail: string, ds: seq<string>, agg: bool, base: seq<Bracket>)
    requires NoLinkage(front + tail + ";") && Stretch(tail, 0) && Net(tail) == 0
    ensures Run(Scan(ds, Collapse([], front), 0, agg, base), tail + ";")
         == Ready(ds + [Normalise(front + tail + ";")], base)
  {
    var u := Scan(ds, Collapse([], front), 0, agg, base);
    assert base + Reals(0) == base;
    RunPiece(front + tail + ";", front, tail, ";", u, base, 0);
    RunAppend(u, tail, ";");
    var v := Run(u, tail);
    RunOne(v, ';');
    FlushEnd(v.(buf := v.buf + ";"), front + tail, ';');
  }

  lemma RunAggregate(head: string, body: string, tail: string, ds: seq<string>, base: seq<Bracket>)
    requires WellFormed(Aggregate(head, body, tail))
    ensures var text := head + "{" + body + "}" + tail + ";";
            Run(Ready(ds, base), text) == Ready(ds + [Normalise(text)], base)
  {
    var front := head + "{" + body + "}";
    Assoc(front, tail, ";");
    Assoc(head + "{" + body, "}", tail + ";");
    OpensAggregateExact(head);
    RunAggregateBody(head, body, tail + ";", ds, base);
    RunTail(front, tail, ds, true, base);
    RunAppend(Ready(ds, base), front, tail + ";");
  }

  lemma RunDecl(d: Decl, ds: seq<string>, base: seq<Bracket>)
    requires WellFormed(d)
    ensures Run(Ready(ds, base), Text(d)) == Ready(ds + [Normalise(Text(d))], base)
  {
    match d {
      case Prototype(head) => RunPrototype(head, ds, base);
      case Inline(head, body) => RunInline(head, body, ds, base);
      case Aggregate(head, body, tail) => RunAggregate(head, body, tail, ds, base);
    }
  }

  lemma {:induction false} RunSpace(st: Scan, s: string)
    requires st.Scan? && AllSpace(s)
    ensures Run(st, s) == st.(buf := Collapse(st.buf, s))
    decreases s
  {
    if s != [] {
      assert IsSpace(s[0]);
      assert AllSpace(s[1..]) by { assert forall i :: 0 <= i < |s[1..]| ==> s[1..][i] == s[i + 1]; }
      RunSpace(Step(st, s[0]), s[1..]);
    }
  }

  lemma {:induction false} CollapseSpace(buf: string, s: string)
    requires AllSpace(s)
    ensures buf == [] || buf[|buf| - 1] == ' ' ==> Collapse(buf, s) == buf
    ensures buf != [] && buf[|buf| - 1] != ' ' ==> Collapse(buf, s) == if s == [] then buf else buf + " "
    decreases s
  {
    if s != [] {
      assert IsSpace(s[0]);
      assert AllSpace(s[1..]) by { assert forall i :: 0 <= i < |s[1..]| ==> s[1..][i] == s[i + 1]; }
      CollapseSpace(Feed(buf, s[0]), s[1..]);
    }
  }

  lemma {:induction false} CollapseWord(buf: string, s: string)
    requires forall i :: 0 <= i < |s| ==> !IsSpace(s[i])
    ensures Collapse(buf, s) == buf + s
    decreases s
  {
    if s != [] {
      CollapseWord(buf + [s[0]], s[1..]);
      assert buf + [s[0]] + s[1..] == buf + s;
    } else {
      assert buf + s == buf;
    }
  }

  const WRAPPER := "extern \"C\""

  lemma ExternCTailOf()
    ensures ExternCTail(WRAPPER) == Some(0) && ExternCTail(WRAPPER + " ") == Some(0)
  {
    assert WRAPPER == EXTERN + " " + QUOTED_C;
    WrapperTail(EXTERN, QUOTED_C);
  }

  lemma RStripSolid(s: string)
    requires s != [] && !IsSpace(s[|s| - 1])
    ensures RStrip(s) == s && RStrip(s + " ") == s
  {
    assert (s + " ")[..|s|] == s;
  }

  lemma WrapperTail(e: string, q: string)
    requires e == EXTERN && q == QUOTED_C
    ensures ExternCTail(e + " " + q) == Some(0) && ExternCTail(e + " " + q + " ") == Some(0)
  {
    assert |e| == 6 && e[5] == 'n' && |q| == 3 && q[2] == '"';
    var t := e + " " + q;
    assert t[|t| - 1] == q[2];
    RStripSolid(t);
    assert t[|t| - 3..] == q && t[..|t| - 3] == e + " ";
    RStripSolid(e);
    assert e[|e| - 6..] == e;
  }

  predicate Word(w: string) { w != [] && forall i :: 0 <= i < |w| ==> !IsSpace(w[i]) }

  lemma CollapseWordSpace(buf: string, w: string, s: string)
    requires Word(w) && AllSpace(s)
    ensures Collapse(buf, w + s) == buf + w + if s == [] then "" else " "
  {
    CollapseWord(buf, w);
    CollapseAppend(buf, w, s);
    assert (buf + w)[|buf + w| - 1] == w[|w| - 1];
    CollapseSpace(buf + w, s);
    assert buf + w + "" == buf + w;
  }

  lemma LinkageBuffer(s1: string, s2: string)
    requires s1 != [] && AllSpace(s1) && AllSpace(s2)
    ensures Collapse([], EXTERN + s1 + QUOTED_C + s2) == WRAPPER + if s2 == [] then "" else " "
  {
    CollapseWordSpace([], EXTERN, s1);
    CollapseAppend([], EXTERN + s1, QUOTED_C + s2);
    assert EXTERN + s1 + QUOTED_C + s2 == EXTERN + s1 + (QUOTED_C + s2);
    CollapseWordSpace([] + EXTERN + " ", QUOTED_C, s2);
    assert [] + EXTERN + " " + QUOTED_C == WRAPPER;
  }

  /** The buffered text in front of a linkage brace. */
  lemma LinkageTail(s1: string, s2: string)
    requires s1 != [] && AllSpace(s1) && AllSpace(s2)
    ensures ExternCTail(Collapse([], EXTERN + s1 + QUOTED_C + s2)) == Some(0)
  {
    LinkageBuffer(s1, s2);
    ExternCTailOf();
    assert WRAPPER + "" == WRAPPER;
  }

  lemma RunLinkageOpen(s1: string, s2: string, ds: seq<string>, base: seq<Bracket>)
    requires s1 != [] && AllSpace(s1) && AllSpace(s2)
    ensures Run(Ready(ds, base), EXTERN + s1 + QUOTED_C + s2 + "{") == Ready(ds, base + [ExternC])
  {
    var st := Ready(ds, base);
    var front := EXTERN + s1 + QUOTED_C + s2;
    LinkageFront(s1, s2, ds, base);
    RunAppend(st, front, "{");
    RunOne(Run(st, front), '{');
    LinkageTail(s1, s2);
    assert Collapse([], front)[..0] == [];
  }

  lemma LinkageFront(s1: string, s2: string, ds: seq<string>, base: seq<Bracket>)
    requires AllSpace(s1) && AllSpace(s2)
    ensures var front := EXTERN + s1 + QUOTED_C + s2; Run(Ready(ds, base), front) == Ready(ds, base).(buf := Collapse([], front))
  {
    QuietWords();
    WordThenSpace(Ready(ds, base), EXTERN, s1);
    WordThenSpace(Run(Ready(ds, base), EXTERN + s1), QUOTED_C, s2);
    Assoc(EXTERN + s1, QUOTED_C, s2);
    RunAppend(Ready(ds, base), EXTERN + s1, QUOTED_C + s2);
    CollapseAppend([], EXTERN + s1, QUOTED_C + s2);
  }

  predicate Quiet(s: string) { forall i :: 0 <= i < |s| ==> s[i] !in "{}()[];" && !IsSpace(s[i]) }

  lemma QuietWords()
    ensures Quiet(EXTERN) && Quiet(QUOTED_C)
  {
  }

  lemma WordThenSpace(st: Scan, w: string, gap: string)
    requires st.Scan? && Quiet(w) && AllSpace(gap)
    ensures Run(st, w + gap) == st.(buf := Collapse(st.buf, w + gap))
  {
    RunQuiet(st, w);
    RunSpace(Run(st, w), gap);
    RunAppend(st, w, gap);
    CollapseAppend(st.buf, w, gap);
  }

  lemma {:induction false} RunQuiet(st: Scan, s: string)
    requires st.Scan? && Quiet(s)
    ensures Run(st, s) == st.(buf := Collapse(st.buf, s))
    decreases s
  {
    if s != [] { RunQuiet(Step(st, s[0]), s[1..]); }
  }

  /** Any printed header leaves the scanner as it found it, with the header's
      declarations appended. */
  lemma {:induction false} RunItems(items: seq<Item>, ds: seq<string>, base: seq<Bracket>)
    requires WellFormedItems(items)
    ensures Run(Ready(ds, base), Print(items)) == Ready(ds + Declared(items), base)
    decreases items
  {
    if items == [] {
      assert ds + [] == ds;
    } else {
      RunItem(items[0], ds, base);
      RunAppend(Ready(ds, base), PrintItem(items[0]), Print(items[1..]));
      RunItems(items[1..], ds + DeclaredIn(items[0]), base);
      Assoc(ds, DeclaredIn(items[0]), Declared(items[1..]));
    }
  }

  lemma {:induction false} RunItem(item: Item, ds: seq<string>, base: seq<Bracket>)
    requires WellFormedItem(item)
    ensures Run(Ready(ds, base), PrintItem(item)) == Ready(ds + DeclaredIn(item), base)
    decreases item
  {
    match item {
      case Gap(space) =>
        RunSpace(Ready(ds, base), space);
        CollapseSpace([], space);
        assert ds + [] == ds;
      case Public(d) =>
        RunDecl(d, ds, base);
      case Linkage(s1, s2, body) =>
        var st := Ready(ds, base);
        var front := EXTERN + s1 + QUOTED_C + s2 + "{";
        RunLinkageOpen(s1, s2, ds, base);
        RunItems(body, ds, base + [ExternC]);
        RunAppend(st, front, Print(body));
        var t := Run(st, front + Print(body));
        RunAppend(st, front + Print(body), "}");
        RunOne(t, '}');
        assert (base + [ExternC])[..|base|] == base;
    }
  }

  /** The round trip: a header printed with any whitespace between its
      declarations, in any nesting of `extern "C" { }`, splits into exactly those
      declarations, each normalised. */
  lemma SplitRecovers(items: seq<Item>)
    requires WellFormedItems(items)
    ensures Split(Print(items)) == Decls(Declared(items))
  {
    RunItems(items, [], []);
    assert [] + Declared(items) == Declared(items);
  }
}
