/** What the gate reads off a text, without its own search: which lines are blanked,
    which spans are citations, on which line one stands, what a range of lines holds. */
module CitationReads {
  import opened PyText
  import opened CitationText
  import opened CitationGate
  import opened CitationFacts
  import opened CitationEdits

  // -------------------------------------------------------------- fenced blocks

  /** Whitespace and three backticks at the start. */
  lemma FenceLineExact(line: string)
    ensures FenceLine(line) <==> exists w, rest :: AllSpace(w) && line == w + ("```" + rest)
  {
    var t := LStrip(line);
    LeadStripped(line);
    if FenceLine(line) {
      var w, rest := line[..|line| - |t|], t[3..];
      assert t == "```" + rest && line == w + t;
    }
    forall w, rest | AllSpace(w) && line == w + ("```" + rest) ensures FenceLine(line) {
      LeadOver(w, "```" + rest);
      assert ("```" + rest)[..3] == "```";
    }
  }

  lemma {:induction false} LeadStripped(s: string)
    ensures |LStrip(s)| <= |s| && s == s[..|s| - |LStrip(s)|] + LStrip(s) && AllSpace(s[..|s| - |LStrip(s)|])
  {
    if s != [] && IsSpace(s[0]) {
      LeadStripped(s[1..]);
      LeadMore(s, |s[1..]| - |LStrip(s)|);
    } else {
      assert s[..0] == [];
    }
  }

  lemma LeadMore(s: string, n: nat)
    requires s != [] && n < |s| && IsSpace(s[0]) && AllSpace(s[1..][..n])
    ensures s[..n + 1] == [s[0]] + s[1..][..n] && AllSpace(s[..n + 1]) && s == s[..n + 1] + s[1..][n..]
  {
  }

  lemma {:induction false} LeadOver(w: string, t: string)
    requires AllSpace(w) && t != [] && !IsSpace(t[0])
    ensures LStrip(w + t) == t
  {
    if w == [] {
      assert w + t == t;
    } else {
      assert (w + t)[0] == w[0] && (w + t)[1..] == w[1..] + t;
      LeadOver(w[1..], t);
    }
  }

  function Fences(lines: seq<string>): nat {
    if lines == [] then 0 else (if FenceLine(lines[0]) then 1 else 0) + Fences(lines[1..])
  }

  lemma FencesCons(lines: seq<string>, i: nat)
    requires 0 < i <= |lines|
    ensures Fences(lines[..i]) == (if FenceLine(lines[0]) then 1 else 0) + Fences(lines[1..][..i - 1])
  {
    assert lines[..i][0] == lines[0] && lines[..i][1..] == lines[1..][..i - 1];
  }

  /** A line is blanked, to spaces of its length, if and only if it is a fence or an odd
      number of fences stand above it. */
  lemma {:induction false} BlankedExact(lines: seq<string>, fenced: bool, i: nat)
    requires i < |lines|
    ensures StripLines(lines, fenced)[i]
         == if FenceLine(lines[i]) || (Fences(lines[..i]) + (if fenced then 1 else 0)) % 2 == 1 then Spaces(|lines[i]|) else lines[i]
    decreases lines
  {
    if i > 0 {
      BlankedExact(lines[1..], fenced != FenceLine(lines[0]), i - 1);
      FencesCons(lines, i);
    }
  }

  /** The same of the text as a whole: its lines, each blanked or not. */
  lemma FencedExact(text: string, i: nat)
    requires i < |SplitOn(text, '\n')|
    ensures var lines := SplitOn(text, '\n');
            && |SplitOn(StripFenced(text), '\n')| == |lines|
            && SplitOn(StripFenced(text), '\n')[i]
               == if FenceLine(lines[i]) || Fences(lines[..i]) % 2 == 1 then Spaces(|lines[i]|) else lines[i]
  {
    var lines := SplitOn(text, '\n');
    var out := StripLines(lines, false);
    JoinSplit(text, '\n');
    forall j | 0 <= j < |out| ensures '\n' !in out[j] { BlankedExact(lines, false, j); }
    SplitJoin(out, '\n');
    BlankedExact(lines, false, i);
  }

  // ------------------------------------------------------------------ citations

  ghost predicate Letter(c: char) { 'a' <= c <= 'z' || 'A' <= c <= 'Z' || '0' <= c <= '9' || c == '_' }

  /** An optional dot, a letter, digit or underscore, and more of these or `/.+-`. */
  ghost predicate Stem(s: string, dot: string, c: char, more: string) {
    && s == dot + ([c] + more) && (dot == "" || dot == ".") && Letter(c)
    && forall i :: 0 <= i < |more| ==> StemChar(more[i])
  }

  ghost predicate StemChar(c: char) { Letter(c) || c == '/' || c == '.' || c == '+' || c == '-' }

  ghost predicate Extension(e: string) {
    || e == "c" || e == "h" || e == "cpp" || e == "hpp" || e == "py" || e == "sh" || e == "yaml" || e == "yml" || e == "md" || e == "json"
    || e == "bb" || e == "bbappend" || e == "cmake" || e == "txt" || e == "dts" || e == "dtsi" || e == "overlay" || e == "kconfig" || e == "conf"
  }

  ghost predicate PathForm(p: string, s: string, e: string) {
    p == s + ("." + e) && Extension(e) && exists dot, c, more :: Stem(s, dot, c, more)
  }

  lemma StemExact(s: string)
    ensures StemOk(s) <==> exists dot, c, more :: Stem(s, dot, c, more)
  {
    if StemOk(s) {
      var t := if s != [] && s[0] == '.' then s[1..] else s;
      assert forall i :: 0 <= i < |t| ==> PathChar(t[i]);
      assert s == (if s[0] == '.' then "." else "") + ([t[0]] + t[1..]);
      assert PathChar(t[0]);
      forall i | 0 <= i < |t[1..]| ensures StemChar(t[1..][i]) { assert PathChar(t[i + 1]); }
      assert Stem(s, if s[0] == '.' then "." else "", t[0], t[1..]);
    }
    forall dot, c, more | Stem(s, dot, c, more) ensures StemOk(s) {
      var t := [c] + more;
      assert s == dot + t && (dot == "." ==> s[1..] == t) && (dot == "" ==> s == t);
      forall i | 0 <= i < |t| ensures PathChar(t[i]) {
        if i > 0 { assert t[i] == more[i - 1] && StemChar(more[i - 1]); }
      }
    }
  }

  lemma ExtensionExact(e: string)
    ensures Extension(e) <==> exists i :: 0 <= i < |EXTENSIONS| && EXTENSIONS[i] == e
  {
    var x := EXTENSIONS;
    assert x[0] == "c" && x[1] == "h" && x[2] == "cpp" && x[3] == "hpp" && x[4] == "py" && x[5] == "sh" && x[6] == "yaml" && x[7] == "yml";
    assert x[8] == "md" && x[9] == "json" && x[10] == "bb" && x[11] == "bbappend" && x[12] == "cmake" && x[13] == "txt" && x[14] == "dts";
    assert x[15] == "dtsi" && x[16] == "overlay" && x[17] == "kconfig" && x[18] == "conf" && |x| == 19;
  }

  lemma StemPart(p: string, e: string)
    requires EndsWith(p, "." + e) && StemOk(p[..|p| - |"." + e|])
    ensures exists s :: p == s + ("." + e) && StemOk(s)
  {
    var ext := "." + e;
    assert p == p[..|p| - |ext|] + p[|p| - |ext|..];
  }

  lemma StemBack(p: string, s: string, e: string)
    requires p == s + ("." + e) && StemOk(s)
    ensures EndsWith(p, "." + e) && StemOk(p[..|p| - |"." + e|])
  {
    var ext := "." + e;
    assert p[..|p| - |ext|] == s && p[|p| - |ext|..] == ext;
  }

  /** A path is a stem, a dot and one of nineteen extensions. */
  lemma PathExact(p: string)
    ensures PathOk(p) <==> exists s, e :: PathForm(p, s, e)
  {
    if PathOk(p) {
      var i :| 0 <= i < |EXTENSIONS| && EndsWith(p, "." + EXTENSIONS[i]) && StemOk(p[..|p| - |"." + EXTENSIONS[i]|]);
      ExtensionExact(EXTENSIONS[i]);
      StemPart(p, EXTENSIONS[i]);
      var s :| p == s + ("." + EXTENSIONS[i]) && StemOk(s);
      StemExact(s);
      assert PathForm(p, s, EXTENSIONS[i]);
    }
    forall s, e | PathForm(p, s, e) ensures PathOk(p) {
      ExtensionExact(e);
      StemExact(s);
      StemBack(p, s, e);
    }
  }

  /** A span between backticks is a citation if and only if it is a path, a colon, and one
      number or two with a dash between. */
  lemma BodyExact(piece: string, c: Cite)
    ensures Body(piece) == Some(c) <==>
            && PathOk(c.path) && Numeral(c.startText) && (c.endText.Some? ==> Numeral(c.endText.value))
            && piece == CiteText(c)
  {
    if Body(piece) == Some(c) { BodyParts(piece); }
    if piece == CiteText(c) && PathOk(c.path) && Numeral(c.startText) && (c.endText.Some? ==> Numeral(c.endText.value)) { TextReads(c); }
  }

  ghost function CiteText(c: Cite): string { c.path + ":" + (c.startText + if c.endText.Some? then "-" + c.endText.value else "") }

  lemma TextReads(c: Cite)
    requires PathOk(c.path) && Numeral(c.startText) && (c.endText.Some? ==> Numeral(c.endText.value))
    ensures Body(CiteText(c)) == Some(c)
  {
    if c.endText.Some? {
      RangeReads(c.path, c.startText, c.endText.value);
      Assoc(c.startText, "-", c.endText.value);
    } else {
      LineReads(c.path, c.startText);
      assert c.startText + "" == c.startText;
    }
  }

  lemma BodyParts(piece: string)
    requires Body(piece).Some?
    ensures piece == CiteText(Body(piece).value)
  {
    var parts := SplitOn(piece, ':');
    JoinSplit(piece, ':');
    TwoParts(parts, ':');
    var nums := SplitOn(parts[1], '-');
    JoinSplit(parts[1], '-');
    if |nums| == 2 {
      TwoParts(nums, '-');
      Assoc(nums[0], "-", nums[1]);
    } else {
      assert nums == [nums[0]] && nums[0] + "" == nums[0];
    }
  }

  lemma TwoParts(parts: seq<string>, c: char)
    requires |parts| == 2
    ensures Join(parts, c) == parts[0] + [c] + parts[1]
  {
    assert parts[1..] == [parts[1]];
  }

  /** A span is found as a citation if and only if it is one and the span before it was
      not found: that one's closing backtick is spent. */
  lemma CitationsExact(pieces: seq<string>, k: nat)
    ensures k in Citations(pieces) <==> IsCite(pieces, k) && (k > 1 ==> k - 1 !in Citations(pieces))
  {
    if k > 0 { ScanExact(Flags(pieces), 1, k); }
  }

  lemma {:induction false} ScanExact(flags: seq<bool>, from: nat, k: nat)
    ensures k in Scan(flags, from) <==> from <= k && k + 1 < |flags| && flags[k] && (k > from ==> k - 1 !in Scan(flags, from))
    decreases |flags| - from
  {
    if from + 1 < |flags| {
      if flags[from] {
        var rest := Scan(flags, from + 2);
        assert Scan(flags, from) == [from] + rest;
        if k >= from + 2 { ScanExact(flags, from + 2, k); }
      } else {
        ScanExact(flags, from + 1, k);
      }
    }
  }

  // ------------------------------------------------------------- lines and ranges

  lemma {:induction false} JoinCut(lines: seq<string>, a: nat)
    requires 0 < a < |lines|
    ensures Join(lines, '\n') == Join(lines[..a], '\n') + (['\n'] + Join(lines[a..], '\n'))
  {
    var rest := lines[1..];
    assert Join(lines, '\n') == lines[0] + (['\n'] + Join(rest, '\n'));
    if a == 1 {
      assert lines[..1] == [lines[0]];
    } else {
      JoinCut(rest, a - 1);
      assert lines[..a][0] == lines[0] && lines[..a][1..] == rest[..a - 1] && rest[a - 1..] == lines[a..];
      assert Join(lines[..a], '\n') == lines[0] + (['\n'] + Join(rest[..a - 1], '\n'));
      Assoc(lines[0], ['\n'] + Join(rest[..a - 1], '\n'), ['\n'] + Join(lines[a..], '\n'));
      Assoc(['\n'], Join(rest[..a - 1], '\n'), ['\n'] + Join(lines[a..], '\n'));
    }
  }

  lemma {:induction false} BreaksBetween(lines: seq<string>)
    requires lines != [] && Free(lines, '\n')
    ensures Count(Join(lines, '\n'), '\n') == |lines| - 1
  {
    CountZero(lines[0], '\n');
    if |lines| > 1 {
      assert Free(lines[1..], '\n') by { assert forall i :: 0 <= i < |lines[1..]| ==> lines[1..][i] == lines[i + 1]; }
      BreaksBetween(lines[1..]);
      assert Join(lines, '\n') == lines[0] + (['\n'] + Join(lines[1..], '\n'));
      CountAppend(lines[0], ['\n'] + Join(lines[1..], '\n'), '\n');
      CountAppend(['\n'], Join(lines[1..], '\n'), '\n');
    }
  }

  /** The text of lines `a` to `b` in the text of the file, with what stands around it. */
  lemma RangeInside(lines: seq<string>, a: nat, b: nat) returns (pre: string, post: string)
    requires a < b <= |lines| && Free(lines, '\n')
    ensures Join(lines, '\n') == pre + Join(lines[a..b], '\n') + post
    ensures Count(pre, '\n') == a && (a > 0 ==> pre != [] && pre[|pre| - 1] == '\n') && (a == 0 ==> pre == [])
    ensures Count(Join(lines[a..b], '\n'), '\n') == b - a - 1
    ensures if b < |lines| then post != [] && post[0] == '\n' else post == []
  {
    var tail := lines[a..];
    pre, post := [], [];
    FreeSlice(lines, a, b);
    BreaksBetween(lines[a..b]);
    if a > 0 {
      JoinCut(lines, a);
      FreeSlice(lines, 0, a);
      assert lines[0..a] == lines[..a];
      BreaksBetween(lines[..a]);
      pre := Join(lines[..a], '\n') + ['\n'];
      CountAppend(Join(lines[..a], '\n'), ['\n'], '\n');
      Assoc(Join(lines[..a], '\n'), ['\n'], Join(tail, '\n'));
    } else {
      assert tail == lines;
    }
    assert Join(lines, '\n') == pre + Join(tail, '\n');
    if b < |lines| {
      JoinCut(tail, b - a);
      assert tail[..b - a] == lines[a..b];
      post := ['\n'] + Join(tail[b - a..], '\n');
      Assoc(pre, Join(lines[a..b], '\n'), post);
    } else {
      assert tail == lines[a..b];
    }
  }

  lemma FreeSlice(lines: seq<string>, a: nat, b: nat)
    requires a <= b <= |lines| && Free(lines, '\n')
    ensures Free(lines[a..b], '\n')
  {
    forall i | 0 <= i < b - a ensures '\n' !in lines[a..b][i] { assert lines[a..b][i] == lines[a + i]; }
  }

  lemma PrefixInside(pre: string, sub: string, post: string, q: nat)
    requires q <= |sub|
    ensures (pre + sub + post)[..|pre| + q] == pre + sub[..q]
  {
  }

  lemma LineInside(pre: string, sub: string, post: string, q: nat)
    requires q <= |sub|
    ensures LineAt(pre + sub + post, |pre| + q) == Count(pre, '\n') + Count(sub[..q], '\n') + 1
  {
    PrefixInside(pre, sub, post, q);
    CountAppend(pre, sub[..q], '\n');
  }

  lemma CountUpto(s: string, q: nat)
    requires q <= |s|
    ensures Count(s[..q], '\n') <= Count(s, '\n')
  {
    assert s == s[..q] + s[q..];
    CountAppend(s[..q], s[q..], '\n');
  }

  /** Before the range every position is on an earlier line, behind it on a later one. */
  lemma LineOutside(pre: string, sub: string, post: string, q: nat)
    requires q <= |pre + sub + post|
    requires (pre != [] ==> pre[|pre| - 1] == '\n') && (post != [] ==> post[0] == '\n')
    ensures q < |pre| ==> LineAt(pre + sub + post, q) <= Count(pre, '\n')
    ensures q > |pre| + |sub| ==> LineAt(pre + sub + post, q) > Count(pre, '\n') + Count(sub, '\n') + 1
  {
    var s := pre + sub + post;
    if q < |pre| {
      assert s[..q] == pre[..|pre| - 1][..q] && pre == pre[..|pre| - 1] + ['\n'];
      CountUpto(pre[..|pre| - 1], q);
      CountAppend(pre[..|pre| - 1], ['\n'], '\n');
    } else if q > |pre| + |sub| {
      assert s[..q] == pre + sub + ['\n'] + post[1..q - |pre| - |sub|];
      CountAppend(pre, sub, '\n');
      CountAppend(pre + sub, ['\n'], '\n');
      CountAppend(pre + sub + ['\n'], post[1..q - |pre| - |sub|], '\n');
    }
  }

  ghost predicate StandsAt(body: string, needle: string, p: int, start: nat, end: nat) {
    && 0 <= p && p + |needle| <= |body| && Occurs(body, needle, p)
    && start <= LineAt(body, p) && LineAt(body, p + |needle|) <= end
  }

  /** The text occurs in the body from line `start` to line `end`. */
  ghost predicate Between(body: string, needle: string, start: nat, end: nat) {
    exists p :: StandsAt(body, needle, p, start, end)
  }

  /** A range of lines holds a text if and only if some occurrence of the text in the file
      starts on or below its first line and ends on or above its last. */
  lemma InRangeExact(lines: seq<string>, start: nat, end: nat, needle: string)
    requires 1 <= start <= end && Free(lines, '\n')
    ensures var body := Join(lines, '\n');
            InRange(lines, start, end, needle) <==>
            end <= |lines| && Between(body, needle, start, end)
  {
    if end <= |lines| {
      var pre, post := RangeInside(lines, start - 1, end);
      assert Slice(lines, start - 1, end) == lines[start - 1..end];
      HeldInside(pre, Join(lines[start - 1..end], '\n'), post, start, end, needle);
    }
  }

  lemma HeldInside(pre: string, sub: string, post: string, start: nat, end: nat, needle: string)
    requires 1 <= start <= end
    requires Count(pre, '\n') == start - 1 && Count(sub, '\n') == end - start
    requires (pre != [] ==> pre[|pre| - 1] == '\n') && (post != [] ==> post[0] == '\n')
    ensures Holds(sub, needle) <==> Between(pre + sub + post, needle, start, end)
  {
    var body := pre + sub + post;
    if Holds(sub, needle) {
      var p :| 0 <= p <= |sub| && Occurs(sub, needle, p);
      InsideStands(pre, sub, post, needle, p, start, end);
    }
    if Between(body, needle, start, end) {
      var p :| StandsAt(body, needle, p, start, end);
      StandsInside(pre, sub, post, needle, p, start, end);
    }
  }

  lemma InsideStands(pre: string, sub: string, post: string, needle: string, p: nat, start: nat, end: nat)
    requires 1 <= start <= end && p <= |sub| && Occurs(sub, needle, p)
    requires Count(pre, '\n') == start - 1 && Count(sub, '\n') == end - start
    ensures StandsAt(pre + sub + post, needle, |pre| + p, start, end)
  {
    InsideOccurs(pre, sub, post, pre + sub + post, needle, p);
  }

  lemma StandsInside(pre: string, sub: string, post: string, needle: string, p: nat, start: nat, end: nat)
    requires 1 <= start <= end
    requires Count(pre, '\n') == start - 1 && Count(sub, '\n') == end - start
    requires (pre != [] ==> pre[|pre| - 1] == '\n') && (post != [] ==> post[0] == '\n')
    requires StandsAt(pre + sub + post, needle, p, start, end)
    ensures Holds(sub, needle)
  {
    LineOutside(pre, sub, post, p);
    LineOutside(pre, sub, post, p + |needle|);
    OutsideOccurs(pre, sub, post, needle, p);
  }

  lemma InsideOccurs(pre: string, sub: string, post: string, body: string, needle: string, p: nat)
    requires p <= |sub| && Occurs(sub, needle, p) && body == pre + sub + post
    ensures Occurs(body, needle, |pre| + p) && Count(pre, '\n') + 1 <= LineAt(body, |pre| + p)
    ensures LineAt(body, |pre| + p + |needle|) <= Count(pre, '\n') + Count(sub, '\n') + 1
  {
    OccursInside(pre, sub, post, needle, p);
    LineBounds(pre, sub, post, p, |pre| + p);
    LineBounds(pre, sub, post, p + |needle|, |pre| + p + |needle|);
  }

  lemma OccursInside(pre: string, sub: string, post: string, needle: string, p: nat)
    requires p <= |sub| && Occurs(sub, needle, p)
    ensures Occurs(pre + sub + post, needle, |pre| + p)
  {
    MiddleSlice(pre, sub, post, p, p + |needle|);
  }

  lemma LineBounds(pre: string, sub: string, post: string, q: nat, at: nat)
    requires q <= |sub| && at == |pre| + q
    ensures Count(pre, '\n') + 1 <= LineAt(pre + sub + post, at) <= Count(pre, '\n') + Count(sub, '\n') + 1
  {
    LineInside(pre, sub, post, q);
    CountUpto(sub, q);
  }

  lemma MiddleSlice(pre: string, sub: string, post: string, p: nat, q: nat)
    requires p <= q <= |sub|
    ensures (pre + sub + post)[|pre| + p..|pre| + q] == sub[p..q]
  {
  }

  lemma OutsideOccurs(pre: string, sub: string, post: string, needle: string, p: nat)
    requires |pre| <= p && p + |needle| <= |pre| + |sub| && Occurs(pre + sub + post, needle, p)
    ensures Holds(sub, needle)
  {
    MiddleSlice(pre, sub, post, p - |pre|, p - |pre| + |needle|);
    assert Occurs(sub, needle, p - |pre|);
  }

  /** The line a citation is said to stand on is a line of the text, and holds it. */
  ghost predicate OnItsLine(stripped: string, pieces: seq<string>, k: nat) {
    && 0 < k < |pieces| && 1 <= CiteLine(stripped, pieces, k) <= |SplitOn(stripped, '\n')|
    && Holds(SplitOn(stripped, '\n')[CiteLine(stripped, pieces, k) - 1], [TICK] + pieces[k] + [TICK])
  }

  lemma CiteLineExact(text: string, k: nat)
    requires k in Citations(Pieces(text))
    ensures OnItsLine(StripFenced(text), Pieces(text), k)
  {
    JoinSplit(StripFenced(text), TICK);
    assert IsCite(Pieces(text), k);
    LineHolds(StripFenced(text), Pieces(text), k);
  }

  lemma LineHolds(stripped: string, pieces: seq<string>, k: nat)
    requires Join(pieces, TICK) == stripped && IsCite(pieces, k)
    ensures OnItsLine(stripped, pieces, k)
  {
    TickedOccurs(pieces, k);
    NeedleLine(stripped, pieces, k, [TICK] + pieces[k] + [TICK]);
  }

  lemma NeedleLine(text: string, pieces: seq<string>, k: nat, needle: string)
    requires 0 < k <= |pieces| && 0 < Offset(pieces, k) <= |text| && Occurs(text, needle, Offset(pieces, k) - 1) && '\n' !in needle
    ensures 1 <= CiteLine(text, pieces, k) <= |SplitOn(text, '\n')| && Holds(SplitOn(text, '\n')[CiteLine(text, pieces, k) - 1], needle)
  {
    OnOneLine(text, needle, Offset(pieces, k) - 1);
    CiteLineIs(text, pieces, k);
  }

  lemma CiteLineIs(text: string, pieces: seq<string>, k: nat)
    requires 0 < k <= |pieces| && 0 < Offset(pieces, k) <= |text|
    ensures CiteLine(text, pieces, k) == LineAt(text, Offset(pieces, k) - 1)
  {
  }

  lemma TickedOccurs(pieces: seq<string>, k: nat)
    requires IsCite(pieces, k)
    ensures 0 < Offset(pieces, k) <= |Join(pieces, TICK)|
    ensures Occurs(Join(pieces, TICK), [TICK] + pieces[k] + [TICK], Offset(pieces, k) - 1) && '\n' !in [TICK] + pieces[k] + [TICK]
  {
    OffsetTail(pieces, k);
    OffsetSlices(pieces, k, 0);
    BodyShape(pieces[k]);
    TickedSlice(Join(pieces, TICK), pieces[k], Offset(pieces, k), Offset(pieces, k + 1));
  }

  lemma TickedSlice(text: string, piece: string, from: nat, upto: nat)
    requires 0 < from && upto == from + |piece| + 1 <= |text| && text[from - 1..upto] == [TICK] + piece + [TICK]
    requires '\n' !in piece
    ensures Occurs(text, [TICK] + piece + [TICK], from - 1) && '\n' !in [TICK] + piece + [TICK]
  {
  }

  lemma OnOneLine(text: string, needle: string, p: nat)
    requires Occurs(text, needle, p) && '\n' !in needle
    ensures var lines := SplitOn(text, '\n'); 1 <= LineAt(text, p) <= |lines| && Holds(lines[LineAt(text, p) - 1], needle)
  {
    var lines, n := SplitOn(text, '\n'), LineAt(text, p);
    JoinSplit(text, '\n');
    CountUpto(text, p);
    assert text[..p + |needle|] == text[..p] + needle;
    CountAppend(text[..p], needle, '\n');
    CountZero(needle, '\n');
    InRangeExact(lines, n, n, needle);
    assert StandsAt(text, needle, p, n, n);
    assert InRange(lines, n, n, needle);
    assert Slice(lines, n - 1, n) == [lines[n - 1]] && Join([lines[n - 1]], '\n') == lines[n - 1];
  }
}
