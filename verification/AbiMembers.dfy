/** Splitting an aggregate body or a parameter list at its top-level separators. */
module AbiMembers {
  import opened PyText

  predicate Opening(c: char) { c == '{' || c == '(' || c == '[' }
  predicate Closing(c: char) { c == '}' || c == ')' || c == ']' }

  function Shift(c: char): int { if Opening(c) then 1 else if Closing(c) then -1 else 0 }

  /** The nesting a run of text adds. */
  function Depth(s: string): int { if s == [] then 0 else Shift(s[0]) + Depth(s[1..]) }

  lemma {:induction false} DepthAppend(a: string, b: string)
    ensures Depth(a + b) == Depth(a) + Depth(b)
  {
    if a == [] {
      assert a + b == b;
    } else {
      assert (a + b)[0] == a[0] && (a + b)[1..] == a[1..] + b;
      DepthAppend(a[1..], b);
    }
  }

  /** A piece is kept stripped, or dropped when there is nothing in it. */
  function Keep(piece: string): seq<string> { if Strip(piece) == [] then [] else [Strip(piece)] }

  function KeepAll(pieces: seq<string>): seq<string> { if pieces == [] then [] else Keep(pieces[0]) + KeepAll(pieces[1..]) }

  /** The text between the separators that stand at depth 0; `buf` holds the piece
      begun and `depth` the nesting reached. */
  function Raw(body: string, sep: char, depth: int, buf: string): (r: seq<string>)
    ensures |r| >= 1
  {
    if body == [] then [buf]
    else
      var d := depth + Shift(body[0]);
      if body[0] == sep && d == 0 then [buf] + Raw(body[1..], sep, d, []) else Raw(body[1..], sep, d, buf + [body[0]])
  }

  method SplitTopLevel(body: string, sep: char) returns (members: seq<string>)
    ensures members == KeepAll(Raw(body, sep, 0, []))
  {
    members := [];
    var buf, depth := "", 0;
    for i := 0 to |body|
      invariant KeepAll(Raw(body, sep, 0, [])) == members + KeepAll(Raw(body[i..], sep, depth, buf))
    {
      var c := body[i];
      RawStep(body, i, sep, depth, buf);
      if Opening(c) {
        depth := depth + 1;
      } else if Closing(c) {
        depth := depth - 1;
      }
      if c == sep && depth == 0 {
        var piece := Strip(buf);
        var kept := if piece != [] then [piece] else [];
        Assoc(members, kept, KeepAll(Raw(body[i + 1..], sep, depth, [])));
        members := members + kept;
        buf := [];
      } else {
        buf := buf + [c];
      }
    }
    assert body[|body|..] == [];
    assert KeepAll([buf]) == Keep(buf);
    var tail := Strip(buf);
    members := members + if tail != [] then [tail] else [];
  }

  lemma RawStep(body: string, i: nat, sep: char, depth: int, buf: string)
    requires i < |body|
    ensures var c, d := body[i], depth + Shift(body[i]);
            KeepAll(Raw(body[i..], sep, depth, buf)) ==
            if c == sep && d == 0 then Keep(buf) + KeepAll(Raw(body[i + 1..], sep, d, [])) else KeepAll(Raw(body[i + 1..], sep, d, buf + [c]))
  {
    assert body[i..][0] == body[i] && body[i..][1..] == body[i + 1..];
    if body[i] == sep && depth + Shift(body[i]) == 0 { KeepHead(buf, Raw(body[i + 1..], sep, 0, [])); }
  }

  lemma KeepHead(piece: string, rest: seq<string>)
    ensures KeepAll([piece] + rest) == Keep(piece) + KeepAll(rest)
  {
    assert ([piece] + rest)[1..] == rest;
  }

  /** The brackets a text opens less those it closes. */
  function Nest(s: string): int {
    Count(s, '{') + Count(s, '(') + Count(s, '[') - Count(s, '}') - Count(s, ')') - Count(s, ']')
  }

  lemma {:induction false} DepthIsNest(s: string)
    ensures Depth(s) == Nest(s)
  {
    if s != [] { DepthIsNest(s[1..]); }
  }

  /** Every separator of the text stands inside some bracket, counted from `depth`. */
  ghost predicate Inner(s: string, sep: char, depth: int) {
    forall i :: 0 <= i < |s| && s[i] == sep ==> depth + Nest(s[..i + 1]) != 0
  }

  lemma NestHead(s: string, n: nat)
    requires n < |s|
    ensures Nest(s[..n + 1]) == Shift(s[0]) + Nest(s[1..][..n])
  {
    DepthIsNest(s[..n + 1]);
    DepthIsNest(s[1..][..n]);
    assert s[..n + 1][0] == s[0] && s[..n + 1][1..] == s[1..][..n];
  }

  lemma InnerTail(s: string, sep: char, depth: int)
    requires s != [] && Inner(s, sep, depth)
    ensures (s[0] == sep ==> depth + Shift(s[0]) != 0) && Inner(s[1..], sep, depth + Shift(s[0]))
  {
    NestHead(s, 0);
    forall i | 0 <= i < |s[1..]| && s[1..][i] == sep ensures depth + Shift(s[0]) + Nest(s[1..][..i + 1]) != 0 {
      assert s[i + 1] == sep;
      NestHead(s, i + 1);
    }
  }

  lemma {:induction false} RawInner(s: string, rest: string, sep: char, depth: int, buf: string)
    requires Inner(s, sep, depth)
    ensures Raw(s + rest, sep, depth, buf) == Raw(rest, sep, depth + Depth(s), buf + s)
  {
    if s == [] {
      assert s + rest == rest && buf + s == buf;
    } else {
      assert (s + rest)[0] == s[0] && (s + rest)[1..] == s[1..] + rest;
      InnerTail(s, sep, depth);
      RawInner(s[1..], rest, sep, depth + Shift(s[0]), buf + [s[0]]);
      assert buf + [s[0]] + s[1..] == buf + s;
    }
  }

  /** Balanced text whose separators are all inside brackets. */
  ghost predicate Piece(s: string, sep: char) { Nest(s) == 0 && Inner(s, sep, 0) }

  lemma {:induction false} KeepStripped(pieces: seq<string>)
    requires forall i :: 0 <= i < |pieces| ==> pieces[i] != [] && Strip(pieces[i]) == pieces[i]
    ensures KeepAll(pieces) == pieces
  {
    if pieces != [] {
      assert forall i :: 0 <= i < |pieces[1..]| ==> pieces[1..][i] == pieces[i + 1];
      KeepStripped(pieces[1..]);
    }
  }

  lemma {:induction false} RawPrinted(pieces: seq<string>, sep: char)
    requires pieces != [] && Nest([sep]) == 0 && forall i :: 0 <= i < |pieces| ==> Piece(pieces[i], sep)
    ensures Raw(Join(pieces, sep), sep, 0, []) == pieces
  {
    var p := pieces[0];
    assert [] + p == p;
    DepthIsNest(p);
    NestHead([sep], 0);
    assert [sep][..1] == [sep] && [sep][1..][..0] == [] && Nest([]) == 0;
    if |pieces| == 1 {
      assert p + [] == p;
      RawInner(p, [], sep, 0, []);
    } else {
      var low := Join(pieces[1..], sep);
      Assoc(p, [sep], low);
      assert ([sep] + low)[1..] == low;
      RawInner(p, [sep] + low, sep, 0, []);
      RawPrinted(pieces[1..], sep);
      assert pieces == [p] + pieces[1..];
    }
  }

  /** Round trip: pieces printed with the separator between them are what the splitter
      answers, stripped, empty ones left out; unchanged when they are stripped already. */
  lemma SplitPrinted(pieces: seq<string>, sep: char)
    requires pieces != [] && Nest([sep]) == 0 && forall i :: 0 <= i < |pieces| ==> Piece(pieces[i], sep)
    ensures KeepAll(Raw(Join(pieces, sep), sep, 0, [])) == KeepAll(pieces)
    ensures (forall i :: 0 <= i < |pieces| ==> pieces[i] != [] && Strip(pieces[i]) == pieces[i]) ==> KeepAll(Raw(Join(pieces, sep), sep, 0, [])) == pieces
  {
    RawPrinted(pieces, sep);
    if forall i :: 0 <= i < |pieces| ==> pieces[i] != [] && Strip(pieces[i]) == pieces[i] { KeepStripped(pieces); }
  }

  /** Conservation: on any text, balanced or not, the pieces joined again are the text. */
  lemma {:induction false} RawJoins(body: string, sep: char, depth: int, buf: string)
    ensures Join(Raw(body, sep, depth, buf), sep) == buf + body
  {
    if body == [] {
      assert buf + body == buf;
    } else {
      var d := depth + Shift(body[0]);
      if body[0] == sep && d == 0 {
        RawJoins(body[1..], sep, d, []);
        var rest := Raw(body[1..], sep, d, []);
        assert ([buf] + rest)[1..] == rest;
        assert [] + body[1..] == body[1..];
        assert body == [sep] + body[1..];
        assert buf + [sep] + body[1..] == buf + body;
      } else {
        RawJoins(body[1..], sep, d, buf + [body[0]]);
        assert buf + [body[0]] + body[1..] == buf + body;
      }
    }
  }

  // ------------------------------------------------------------ where the cuts are

  /** Where piece `j` ends in the text the pieces came from. */
  function EndOf(pieces: seq<string>, j: nat): nat
    requires j < |pieces|
  {
    if j == 0 then |pieces[0]| else EndOf(pieces, j - 1) + 1 + |pieces[j]|
  }

  /** Position `i` is where a piece ends and another follows. */
  ghost predicate CutAt(pieces: seq<string>, i: int) { exists j :: 0 <= j && j + 1 < |pieces| && EndOf(pieces, j) == i }

  lemma {:induction false} EndTail(pieces: seq<string>, j: nat)
    requires 0 < j < |pieces|
    ensures EndOf(pieces, j) == |pieces[0]| + 1 + EndOf(pieces[1..], j - 1)
  {
    if j > 1 { EndTail(pieces, j - 1); }
  }

  lemma CutCons(p: string, rest: seq<string>, i: int)
    requires rest != []
    ensures CutAt([p] + rest, i) <==> i == |p| || CutAt(rest, i - |p| - 1)
  {
    var all := [p] + rest;
    assert all[1..] == rest;
    forall j | 0 < j < |all| ensures EndOf(all, j) == |p| + 1 + EndOf(rest, j - 1) { EndTail(all, j); }
    if i == |p| { assert EndOf(all, 0) == i; }
    if j :| 0 <= j && j + 1 < |rest| && EndOf(rest, j) == i - |p| - 1 { assert EndOf(all, j + 1) == i; }
    if j :| 0 <= j && j + 1 < |all| && EndOf(all, j) == i && j > 0 { assert EndOf(rest, j - 1) == i - |p| - 1; }
  }

  /** The text is cut at exactly the separators that stand outside every bracket, counted
      from the start. */
  lemma {:induction false} CutsFrom(body: string, sep: char, depth: int, buf: string, i: int)
    ensures CutAt(Raw(body, sep, depth, buf), i) <==>
            0 <= i - |buf| < |body| && body[i - |buf|] == sep && depth + Nest(body[..i - |buf| + 1]) == 0
    decreases body
  {
    if body != [] {
      var d := depth + Shift(body[0]);
      var at := i - |buf|;
      NestHead(body, 0);
      assert Nest([]) == 0 && body[1..][..0] == [];
      if 0 < at < |body| { NestHead(body, at); }
      if body[0] == sep && d == 0 {
        var rest := Raw(body[1..], sep, d, []);
        CutsFrom(body[1..], sep, d, [], at - 1);
        CutCons(buf, rest, i);
      } else {
        CutsFrom(body[1..], sep, d, buf + [body[0]], i);
      }
    }
  }

  lemma CutsExact(body: string, sep: char, i: int)
    ensures CutAt(Raw(body, sep, 0, []), i) <==> 0 <= i < |body| && body[i] == sep && Nest(body[..i + 1]) == 0
  {
    CutsFrom(body, sep, 0, [], i);
  }

  /** A piece is kept, without the whitespace around it, if and only if it is not all
      whitespace; the order stays. */
  lemma {:induction false} KeptExact(pieces: seq<string>, m: string)
    ensures m in KeepAll(pieces) <==> m != [] && exists p :: p in pieces && Strip(p) == m
    ensures forall a, b :: pieces == a + b ==> KeepAll(pieces) == KeepAll(a) + KeepAll(b)
  {
    if pieces != [] {
      KeptExact(pieces[1..], m);
      assert pieces == [pieces[0]] + pieces[1..];
    }
    forall a, b | pieces == a + b ensures KeepAll(pieces) == KeepAll(a) + KeepAll(b) { KeepAppend(a, b); }
  }

  lemma {:induction false} KeepAppend(a: seq<string>, b: seq<string>)
    ensures KeepAll(a + b) == KeepAll(a) + KeepAll(b)
  {
    if a == [] {
      assert a + b == b;
    } else {
      assert (a + b)[0] == a[0] && (a + b)[1..] == a[1..] + b;
      KeepAppend(a[1..], b);
      Assoc(Keep(a[0]), KeepAll(a[1..]), KeepAll(b));
    }
  }
}
