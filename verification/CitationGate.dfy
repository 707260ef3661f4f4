/** The two halves of the citation gate: the checker that grades a citation and the
    fixer that re-derives its line from its anchor. */
module CitationGate {
  import opened PyText
  import opened CitationText
  import opened Splice

  // ----------------------------------------------------------------- cited files

  predicate LineBreak(c: char) {
    var n := c as int;
    10 <= n <= 13 || 28 <= n <= 30 || n == 0x85 || n == 0x2028 || n == 0x2029
  }

  /** `str.splitlines`: `\r\n` is one break, and a final break opens no line. */
  function SplitLinesFrom(s: string, line: string): seq<string>
    decreases s
  {
    if s == [] then (if line == [] then [] else [line])
    else if s[0] == '\r' && |s| > 1 && s[1] == '\n' then [line] + SplitLinesFrom(s[2..], [])
    else if LineBreak(s[0]) then [line] + SplitLinesFrom(s[1..], [])
    else SplitLinesFrom(s[1..], line + [s[0]])
  }

  function FileLines(body: string): seq<string> { SplitLinesFrom(body, []) }

  function Min(a: int, b: int): int { if a < b then a else b }

  /** `lines[a:b]`, negative start included. */
  function Slice(lines: seq<string>, a: int, b: int): seq<string>
    requires b >= 0
  {
    var lo := if a >= 0 then a else if a + |lines| >= 0 then a + |lines| else 0;
    var hi := Min(b, |lines|);
    if lo < hi then lines[lo..hi] else []
  }

  predicate Occurs(body: string, needle: string, p: nat) {
    p + |needle| <= |body| && body[p..p + |needle|] == needle
  }

  predicate Holds(body: string, needle: string) {
    exists p :: 0 <= p <= |body| && Occurs(body, needle, p)
  }

  function LineAt(body: string, p: nat): nat
    requires p <= |body|
  {
    Count(body[..p], '\n') + 1
  }

  /** `body.find(needle, from)`. */
  function Find(body: string, needle: string, from: nat): (at: Option<nat>)
    ensures at.Some? ==> from <= at.value && Occurs(body, needle, at.value) && forall p :: from <= p < at.value ==> !Occurs(body, needle, p)
    ensures at.None? ==> forall p :: from <= p ==> !Occurs(body, needle, p)
    decreases |body| + 1 - from
  {
    if from + |needle| > |body| then None
    else if Occurs(body, needle, from) then Some(from)
    else Find(body, needle, from + 1)
  }

  /** The scan of `_anchor_line_hits` from an occurrence on: each line once. */
  function HitsFrom(body: string, needle: string, at: Option<nat>, hits: seq<nat>): seq<nat>
    requires at.Some? ==> Occurs(body, needle, at.value)
    decreases if at.Some? then |body| + 1 - at.value else 0
  {
    if at.None? then hits
    else
      var line := LineAt(body, at.value);
      HitsFrom(body, needle, Find(body, needle, at.value + 1),
               if hits == [] || hits[|hits| - 1] != line then hits + [line] else hits)
  }

  function Hits(body: string, needle: string): seq<nat> { HitsFrom(body, needle, Find(body, needle, 0), []) }

  method AnchorLineHits(body: string, needle: string) returns (hits: seq<nat>)
    ensures hits == Hits(body, needle)
  {
    hits := [];
    var at := Find(body, needle, 0);
    while at.Some?
      invariant at.Some? ==> Occurs(body, needle, at.value)
      invariant HitsFrom(body, needle, at, hits) == Hits(body, needle)
      decreases if at.Some? then |body| + 1 - at.value else 0
    {
      var line := LineAt(body, at.value);
      if hits == [] || hits[|hits| - 1] != line { hits := hits + [line]; }
      at := Find(body, needle, at.value + 1);
    }
  }

  // ------------------------------------------------------------------- decisions

  const MIN_DRIFT_ANCHOR := 16

  /** What a citation is judged against: whether the citing document is CHANGELOG.md,
      and the cited files' texts. */
  datatype Context = Context(changelog: bool, files: map<string, string>)

  predicate StartsWith(s: string, p: string) { |p| <= |s| && s[..|p|] == p }

  predicate ForeignPath(path: string) {
    StartsWith(path, "python/") || StartsWith(path, "crates/") || StartsWith(path, "contract/")
  }

  predicate Folded(ctx: Context, path: string) {
    ctx.changelog && StartsWith(path, "changelog.d/") && path !in ctx.files
  }

  function MaxNat(a: int, b: nat): (m: nat)
    ensures m >= b && m as int >= a
  {
    if a > b then a else b
  }

  predicate InRange(lines: seq<string>, start: nat, end: nat, needle: string) {
    end <= |lines| && Holds(Join(Slice(lines, start as int - 1, end), '\n'), needle)
  }

  function Width(start: nat, end: nat, needle: string): nat { MaxNat(end as int - start as int, Count(needle, '\n')) }

  /** The end of a range re-anchored at `hit`, unless it would pass the end of the file. */
  function Reanchor(lines: seq<string>, hit: nat, width: nat): Option<(nat, nat)> {
    if hit + width > |lines| then None else Some((hit, hit + width))
  }

  /** Which rules one run applies to a citation. */
  datatype Mode = Mode(isNew: bool, enforceNew: bool, strict: bool, released: bool)

  datatype Grade =
    | SkippedForeign | SkippedFolded
    | NoFile | Malformed | PastEnd | NearMissed | NewUnanchored
    | PassUnanchored | PassInRange
    | NewWrong | Absent | Ambiguous(hits: seq<nat>) | TooShort(hit: nat) | TooWide(hit: nat) | Stale(hit: nat)
    | Drifted(hit: nat)

  predicate IsSkip(g: Grade) { g.SkippedForeign? || g.SkippedFolded? }

  predicate IsSilentPass(g: Grade) { g.PassUnanchored? || g.PassInRange? }

  predicate IsError(g: Grade) { !IsSkip(g) && !IsSilentPass(g) && !g.Drifted? }

  predicate New(mode: Mode) { mode.enforceNew && mode.isNew }

  /** The checker's decision on the citation in piece `k`. */
  function GradeOf(ctx: Context, pieces: seq<string>, k: nat, mode: Mode): Grade
    requires IsCite(pieces, k)
  {
    var c := Body(pieces[k]).value;
    if ForeignPath(c.path) then SkippedForeign
    else if Folded(ctx, c.path) then SkippedFolded
    else if c.path !in ctx.files then NoFile
    else
      var lines := FileLines(ctx.files[c.path]);
      match AnchorAt(pieces, k)
      case BadOpening => Malformed
      case NoOpening => GradeUnanchored(pieces, k, lines, mode)
      case Unparsed => GradeUnanchored(pieces, k, lines, mode)
      case Anchor(text) => GradeAnchored(lines, Start(c), End(c), Strip(text), mode)
  }

  function GradeUnanchored(pieces: seq<string>, k: nat, lines: seq<string>, mode: Mode): Grade
    requires IsCite(pieces, k)
  {
    if End(Body(pieces[k]).value) > |lines| then PastEnd
    else if NearMiss(pieces, k) then NearMissed
    else if New(mode) then NewUnanchored
    else PassUnanchored
  }

  function GradeAnchored(lines: seq<string>, start: nat, end: nat, needle: string, mode: Mode): Grade {
    if InRange(lines, start, end, needle) then PassInRange
    else if New(mode) then NewWrong
    else
      var hits := Hits(Join(lines, '\n'), needle);
      if hits == [] then Absent
      else if |hits| > 1 then Ambiguous(hits)
      else if |needle| < MIN_DRIFT_ANCHOR then TooShort(hits[0])
      else if Reanchor(lines, hits[0], Width(start, end, needle)).None? then TooWide(hits[0])
      else if mode.strict && !mode.released then Stale(hits[0])
      else Drifted(hits[0])
  }

  datatype Mark = Unmarked | AmbiguousMark(hits: seq<nat>) | VerifyMark

  datatype Repair =
    | LeftForeign | LeftFolded | Kept | Unanchored
    | NeedsHuman
    | Rewrite(start: nat, end: nat, mark: Mark)

  function Abs(n: int): nat { if n < 0 then -n else n }

  predicate Nearer(a: nat, b: nat, start: nat) {
    Abs(a - start) < Abs(b - start) || (Abs(a - start) == Abs(b - start) && a >= b)
  }

  /** `min(hits, key=lambda h: (abs(h - start), -h))` */
  function Nearest(hits: seq<nat>, start: nat): (h: nat)
    requires hits != []
    ensures h in hits && forall x :: x in hits ==> Nearer(h, x, start)
  {
    if |hits| == 1 then hits[0]
    else
      var rest := Nearest(hits[1..], start);
      assert hits == [hits[0]] + hits[1..];
      if Nearer(hits[0], rest, start) then hits[0] else rest
  }

  /** The fixer's decision on the citation in piece `k`. */
  function RepairOf(ctx: Context, pieces: seq<string>, k: nat): Repair
    requires IsCite(pieces, k)
  {
    var c := Body(pieces[k]).value;
    if ForeignPath(c.path) then LeftForeign
    else if Folded(ctx, c.path) then LeftFolded
    else if c.path !in ctx.files then NeedsHuman
    else
      match AnchorAt(pieces, k)
      case BadOpening => NeedsHuman
      case NoOpening => if NearMiss(pieces, k) then NeedsHuman else Unanchored
      case Unparsed => if NearMiss(pieces, k) then NeedsHuman else Unanchored
      case Anchor(text) => RepairAnchored(FileLines(ctx.files[c.path]), Start(c), End(c), Strip(text))
  }

  function RepairAnchored(lines: seq<string>, start: nat, end: nat, needle: string): Repair {
    if InRange(lines, start, end, needle) then Kept
    else
      var hits := Hits(Join(lines, '\n'), needle);
      if hits == [] then NeedsHuman
      else
        var hit := Nearest(hits, start);
        var mark := if |hits| > 1 then AmbiguousMark(hits) else if |needle| < MIN_DRIFT_ANCHOR then VerifyMark else Unmarked;
        var span := Reanchor(lines, hit, Width(start, end, needle));
        if span.None? then NeedsHuman else Rewrite(span.value.0, span.value.1, mark)
  }

  /** The citation text a rewrite prints between the backticks. */
  function Printed(c: Cite, start: nat, end: nat): string {
    c.path + ":" + ToStr(start) + (if c.endText.Some? || end > start then "-" + ToStr(end) else "")
  }

  /** The new text of piece `k`, if the fixer rewrites it. */
  function NewBody(ctx: Context, pieces: seq<string>, k: nat): Option<string>
    requires IsCite(pieces, k)
  {
    var r := RepairOf(ctx, pieces, k);
    if r.Rewrite? then Some(Printed(Body(pieces[k]).value, r.start, r.end)) else None
  }

  // ------------------------------------------------------------ the source's loops

  datatype Findings = Findings(errors: seq<(nat, Grade)>, skips: seq<(nat, Grade)>, notes: seq<(nat, Grade)>,
                               checked: nat, anchored: nat)

  predicate Checked(g: Grade) { !IsSkip(g) && !g.NoFile? }

  predicate Anchored(g: Grade) {
    Checked(g) && !g.Malformed? && !g.PastEnd? && !g.NearMissed? && !g.NewUnanchored? && !g.PassUnanchored?
  }

  function Record(f: Findings, k: nat, g: Grade): Findings {
    f.(errors := if IsError(g) then f.errors + [(k, g)] else f.errors,
       skips := if IsSkip(g) then f.skips + [(k, g)] else f.skips,
       notes := if g.Drifted? then f.notes + [(k, g)] else f.notes,
       checked := f.checked + (if Checked(g) then 1 else 0),
       anchored := f.anchored + (if Anchored(g) then 1 else 0))
  }

  /** The line of the document a citation stands on. */
  function CiteLine(text: string, pieces: seq<string>, k: nat): nat
    requires 0 < k <= |pieces|
  {
    Count(text[..Min(Offset(pieces, k) - 1, |text|)], '\n') + 1
  }

  function ModeAt(text: string, pieces: seq<string>, k: nat, added: Option<set<nat>>, strict: bool, released: bool): Mode
    requires 0 < k <= |pieces|
  {
    Mode(added.Some? && CiteLine(text, pieces, k) in added.value, added.Some?, strict, released)
  }

  function Check(ctx: Context, text: string, pieces: seq<string>, ks: seq<nat>, added: Option<set<nat>>,
                 strict: bool, released: bool, f: Findings): Findings
    requires AllCites(pieces, ks)
    decreases ks
  {
    if ks == [] then f
    else
      assert IsCite(pieces, ks[0]);
      var g := GradeOf(ctx, pieces, ks[0], ModeAt(text, pieces, ks[0], added, strict, released));
      Check(ctx, text, pieces, ks[1..], added, strict, released, Record(f, ks[0], g))
  }

  const NO_FINDINGS := Findings([], [], [], 0, 0)

  method CheckOne(ctx: Context, text: string, added: Option<set<nat>>, strict: bool, released: bool) returns (f: Findings)
    ensures var stripped := StripFenced(text);
            var pieces := Pieces(text);
            f == Check(ctx, stripped, pieces, Citations(pieces), added, strict, released, NO_FINDINGS)
  {
    var stripped := StripFencedBlocks(text);
    var pieces := SplitOn(stripped, TICK);
    var ks := Citations(pieces);
    f := NO_FINDINGS;
    for i := 0 to |ks|
      invariant Check(ctx, stripped, pieces, ks[i..], added, strict, released, f)
             == Check(ctx, stripped, pieces, ks, added, strict, released, NO_FINDINGS)
    {
      var k := ks[i];
      assert ks[i..][0] == k && ks[i..][1..] == ks[i + 1..];
      var mode := Mode(added.Some? && CiteLine(stripped, pieces, k) in added.value, added.Some?, strict, released);
      f := Record(f, k, GradeOf(ctx, pieces, k, mode));
    }
  }

  /** Each piece's new text, where the fixer rewrites it. */
  function NewBodies(ctx: Context, pieces: seq<string>): (news: seq<Option<string>>)
    ensures |news| == |pieces|
    ensures forall k :: 0 <= k < |pieces| ==> news[k] == if IsCite(pieces, k) then NewBody(ctx, pieces, k) else None
  {
    seq(|pieces|, k requires 0 <= k < |pieces| => if IsCite(pieces, k) then NewBody(ctx, pieces, k) else None)
  }

  /** The edits of the fixer, in text order, as spans of the whole citation. */
  function EditsOf(news: seq<Option<string>>, pieces: seq<string>, ks: seq<nat>): seq<Edit>
    requires |news| == |pieces| && forall i :: 0 <= i < |ks| ==> 0 < ks[i] < |pieces|
    decreases ks
  {
    if ks == [] then []
    else
      EditAt(news, pieces, ks[0]) + EditsOf(news, pieces, ks[1..])
  }

  function EditAt(news: seq<Option<string>>, pieces: seq<string>, k: nat): seq<Edit>
    requires 0 < k < |pieces| == |news|
  {
    if news[k].Some? then
      [Edit(Offset(pieces, k) - 1, Offset(pieces, k) + |pieces[k]| + 1, [TICK] + news[k].value + [TICK])]
    else []
  }
}
