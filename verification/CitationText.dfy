/** How the citation gate reads a changelog text: fenced blocks blanked, citations
    between backticks, the anchor that follows one. */
module CitationText {
  import opened PyText

  const TICK: char := '`'

  // -------------------------------------------------------------- fenced blocks

  predicate FenceLine(line: string) {
    var t := LStrip(line);
    |t| >= 3 && t[..3] == "```"
  }

  function Spaces(n: nat): (s: string)
    ensures |s| == n && forall i :: 0 <= i < n ==> s[i] == ' '
  {
    if n == 0 then [] else [' '] + Spaces(n - 1)
  }

  /** One line, given whether a block is open before it. */
  function StripLine(line: string, fenced: bool): (s: string)
    ensures |s| == |line|
  {
    if FenceLine(line) || fenced then Spaces(|line|) else line
  }

  function StripLines(lines: seq<string>, fenced: bool): (out: seq<string>)
    ensures |out| == |lines|
    decreases lines
  {
    if lines == [] then []
    else [StripLine(lines[0], fenced)] + StripLines(lines[1..], fenced != FenceLine(lines[0]))
  }

  function StripFenced(text: string): string {
    Join(StripLines(SplitOn(text, '\n'), false), '\n')
  }

  method StripFencedBlocks(text: string) returns (r: string)
    ensures r == StripFenced(text)
  {
    var lines := SplitOn(text, '\n');
    var out: seq<string>, fenced := [], false;
    for i := 0 to |lines|
      invariant out + StripLines(lines[i..], fenced) == StripLines(lines, false)
    {
      var line := lines[i];
      assert lines[i..][0] == line && lines[i..][1..] == lines[i + 1..];
      ghost var rest := StripLines(lines[i + 1..], fenced != FenceLine(line));
      Assoc(out, [StripLine(line, fenced)], rest);
      if FenceLine(line) {
        fenced := !fenced;
        out := out + [Spaces(|line|)];
      } else {
        out := out + [if fenced then Spaces(|line|) else line];
      }
    }
    assert lines[|lines|..] == [] && out + [] == out;
    r := Join(out, '\n');
  }

  // ------------------------------------------------------------------ citations

  const EXTENSIONS: seq<string> := ["c", "h", "cpp", "hpp", "py", "sh", "yaml", "yml", "md", "json", "bb", "bbappend",
                                    "cmake", "txt", "dts", "dtsi", "overlay", "kconfig", "conf"]

  predicate PathChar(c: char) { IsWord(c) || c == '/' || c == '.' || c == '+' || c == '-' }

  /** `\.?[A-Za-z0-9_][A-Za-z0-9_/.+-]*` */
  predicate StemOk(s: string) { NameOk(if s != [] && s[0] == '.' then s[1..] else s) }

  predicate NameOk(t: string) { t != [] && IsWord(t[0]) && forall i :: 0 <= i < |t| ==> PathChar(t[i]) }

  predicate PathOk(p: string) {
    exists i :: 0 <= i < |EXTENSIONS| &&
      (var ext := "." + EXTENSIONS[i];
       EndsWith(p, ext) && StemOk(p[..|p| - |ext|]))
  }

  datatype Cite = Cite(path: string, startText: string, endText: Option<string>)

  function Numbers(s: string): Option<(string, Option<string>)> {
    var parts := SplitOn(s, '-');
    if |parts| == 1 && Numeral(parts[0]) then Some((parts[0], None))
    else if |parts| == 2 && Numeral(parts[0]) && Numeral(parts[1]) then Some((parts[0], Some(parts[1])))
    else None
  }

  /** The citation a backtick-delimited piece of text is, if it is one:
      `path.ext:start` or `path.ext:start-end`. */
  function Body(piece: string): (r: Option<Cite>)
    ensures r.Some? ==> PathOk(r.value.path) && Numeral(r.value.startText)
                        && (r.value.endText.Some? ==> Numeral(r.value.endText.value))
  {
    var parts := SplitOn(piece, ':');
    if |parts| == 2 && PathOk(parts[0]) && Numbers(parts[1]).Some? then
      var n := Numbers(parts[1]).value;
      Some(Cite(parts[0], n.0, n.1))
    else None
  }

  function Start(c: Cite): nat
    requires Numeral(c.startText)
  {
    ToInt(c.startText)
  }

  function End(c: Cite): nat
    requires Numeral(c.startText) && (c.endText.Some? ==> Numeral(c.endText.value))
  {
    if c.endText.Some? then ToInt(c.endText.value) else ToInt(c.startText)
  }

  /** Piece `k` is a citation: a body between two backticks. */
  predicate IsCite(pieces: seq<string>, k: nat) {
    0 < k && k + 1 < |pieces| && Body(pieces[k]).Some?
  }

  predicate AllCites(pieces: seq<string>, ks: seq<nat>) { forall k :: k in ks ==> IsCite(pieces, k) }

  function Flags(pieces: seq<string>): (flags: seq<bool>)
    ensures |flags| == |pieces| && forall i :: 0 <= i < |pieces| ==> flags[i] == Body(pieces[i]).Some?
  {
    seq(|pieces|, i requires 0 <= i < |pieces| => Body(pieces[i]).Some?)
  }

  /** The search for citations among the pieces between backticks. A piece that is one
      uses up both its backticks, so the search goes on two pieces later. */
  function Scan(flags: seq<bool>, k: nat): (ks: seq<nat>)
    ensures forall i :: 0 <= i < |ks| ==> k <= ks[i] < |flags| - 1 && flags[ks[i]]
    decreases |flags| - k
  {
    if k + 1 >= |flags| then []
    else if flags[k] then [k] + Scan(flags, k + 2)
    else Scan(flags, k + 1)
  }

  /** Two citations never share a backtick. */
  lemma {:induction false} ScanApart(flags: seq<bool>, k: nat, x: nat)
    requires x in Scan(flags, k)
    ensures x + 1 !in Scan(flags, k)
    decreases |flags| - k
  {
    if flags[k] {
      var rest := Scan(flags, k + 2);
      assert Scan(flags, k) == [k] + rest;
      if x != k { ScanApart(flags, k + 2, x); }
    } else {
      ScanApart(flags, k + 1, x);
    }
  }

  function Pieces(text: string): (pieces: seq<string>)
    ensures |pieces| >= 1
  {
    SplitOn(StripFenced(text), TICK)
  }

  function Citations(pieces: seq<string>): (ks: seq<nat>)
    ensures AllCites(pieces, ks)
  {
    Scan(Flags(pieces), 1)
  }

  /** Where piece `k` starts in the text. */
  function Offset(pieces: seq<string>, k: nat): nat
    requires k <= |pieces|
  {
    if k == 0 then 0 else Offset(pieces, k - 1) + |pieces[k - 1]| + 1
  }

  // -------------------------------------------------------------------- anchors

  const LEFT: char := '\U{201C}'   // left double quotation mark
  const RIGHT: char := '\U{201D}'  // right double quotation mark

  predicate Closes(c: char) { c == '"' || c == RIGHT || c == TICK }

  function SkipSpace(s: string, i: nat): (j: nat)
    requires i <= |s|
    ensures i <= j <= |s|
    decreases |s| - i
  {
    if i < |s| && IsSpace(s[i]) then SkipSpace(s, i + 1) else i
  }

  /** After `\s*\(\s*` at the head of `s`. */
  function AfterParen(s: string): (j: Option<nat>)
    ensures j.Some? ==> j.value <= |s|
  {
    var i := SkipSpace(s, 0);
    if i < |s| && s[i] == '(' then Some(SkipSpace(s, i + 1)) else None
  }

  function RunLength(s: string, i: nat): (j: nat)
    requires i <= |s|
    ensures i <= j <= |s| && forall k :: i <= k < j ==> !Closes(s[k])
    ensures j < |s| ==> Closes(s[j])
    decreases |s| - i
  {
    if i < |s| && !Closes(s[i]) then RunLength(s, i + 1) else i
  }

  datatype Anchor = NoOpening | BadOpening | Unparsed | Anchor(text: string)

  /** The anchor text from `i` on: up to a closing delimiter in the piece, or to the
      backtick after the piece if there is one. */
  function Delimited(piece: string, i: nat, ticked: bool): Anchor
    requires i <= |piece|
  {
    var j := RunLength(piece, i);
    var closed := j < |piece| || ticked;
    if closed && i == j then BadOpening
    else if closed && 4 <= j - i <= 120 then Anchor(piece[i..j])
    else Unparsed
  }

  /** The anchor that follows the citation in piece `k`: an opening parenthesis and a
      delimiter right after its closing backtick. The delimiter may be the backtick
      that opens piece `k + 2`. */
  function AnchorAt(pieces: seq<string>, k: nat): Anchor
    requires k + 1 < |pieces|
  {
    var lead := pieces[k + 1];
    match AfterParen(lead)
    case None => NoOpening
    case Some(j) =>
      if j < |lead| then
        if lead[j] == '"' || lead[j] == LEFT then Delimited(lead, j + 1, k + 2 < |pieces|) else NoOpening
      else if k + 2 < |pieces| then Delimited(pieces[k + 2], 0, k + 3 < |pieces|)
      else NoOpening
  }

  function RTrimBlank(s: string): string {
    if s != [] && (s[|s| - 1] == ' ' || s[|s| - 1] == '\t') then RTrimBlank(s[..|s| - 1]) else s
  }

  /** A parenthesis opens right before the citation, at most 40 characters back. */
  predicate ParenBefore(before: string) {
    var t := RTrimBlank(before);
    t != [] && t[|t| - 1] == '(' && |before| - |t| < 40
  }

  function SkipBlank(s: string, i: nat): (j: nat)
    requires i <= |s|
    ensures i <= j <= |s|
    decreases |s| - i
  {
    if i < |s| && (s[i] == ' ' || s[i] == '\t') then SkipBlank(s, i + 1) else i
  }

  /** A double quote comes before any parenthesis and any blank line. */
  predicate QuoteInParen(s: string) {
    if s == [] then false
    else if s[0] == '"' || s[0] == LEFT then true
    else if s[0] == '(' || s[0] == ')' then false
    else if s[0] == '\n' && (var j := SkipBlank(s, 1); j < |s| && s[j] == '\n') then false
    else QuoteInParen(s[1..])
  }

  /** An attempt at an anchor that the anchor syntax does not accept. */
  predicate NearMiss(pieces: seq<string>, k: nat)
    requires 0 < k && k + 1 < |pieces|
  {
    || AnchorAt(pieces, k).Unparsed?
    || (QuoteInParen(Join(pieces[k + 1..], TICK)) && ParenBefore(pieces[k - 1]))
  }
}
