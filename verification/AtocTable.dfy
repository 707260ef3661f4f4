/** The pre-burn guard's reading of a `gettoc` transcript: ANSI stripping, the
    resident table, the completeness scan, the verdict. */
module AtocTable {
  import opened PyText

  const ESC: char := '\U{1b}'

  predicate IsLetter(c: char) { 'a' <= c <= 'z' || 'A' <= c <= 'Z' }

  predicate IsParam(c: char) { IsDigit(c) || c == ';' || c == '?' }

  function ParamRun(s: string, i: nat): (p: nat)
    requires i <= |s|
    ensures i <= p <= |s| && forall k :: i <= k < p ==> IsParam(s[k])
    ensures p < |s| ==> !IsParam(s[p])
    decreases |s| - i
  {
    if i < |s| && IsParam(s[i]) then ParamRun(s, i + 1) else i
  }

  /** Length of a CSI sequence `ESC [ params letter` at the head of `s`, or 0. */
  function CsiLen(s: string): (n: nat)
    ensures n <= |s| && (n > 0 ==> n >= 3)
  {
    if |s| >= 2 && s[0] == ESC && s[1] == '[' then
      var p := ParamRun(s, 2);
      if p < |s| && IsLetter(s[p]) then p + 1 else 0
    else 0
  }

  function StripCsi(s: string): string
    decreases |s|
  {
    if s == [] then []
    else if CsiLen(s) > 0 then StripCsi(s[CsiLen(s)..])
    else [s[0]] + StripCsi(s[1..])
  }

  function DropCr(s: string): string {
    if s == [] then [] else (if s[0] == '\r' then [] else [s[0]]) + DropCr(s[1..])
  }

  function Lines(text: string): (ls: seq<string>)
    ensures |ls| >= 1
  {
    SplitOn(DropCr(StripCsi(text)), '\n')
  }

  // ------------------------------------------------------------------- one line

  predicate Blank(c: char) { c == ' ' || c == '\t' }

  function LTrim(s: string): string { if s != [] && Blank(s[0]) then LTrim(s[1..]) else s }

  function RTrim(s: string): string { if s != [] && Blank(s[|s| - 1]) then RTrim(s[..|s| - 1]) else s }

  /** awk's trim: spaces and tabs only. */
  function Trim(s: string): string { LTrim(RTrim(s)) }

  predicate IsRow(line: string) {
    var t := LTrim(line);
    t != [] && t[0] == '|'
  }

  /** `^[ \t]*\+[-+]*\+[ \t]*$` */
  predicate IsSeparator(line: string) {
    var t := Trim(line);
    |t| >= 2 && t[0] == '+' && t[|t| - 1] == '+' && forall i :: 0 <= i < |t| ==> t[i] == '-' || t[i] == '+'
  }

  predicate DashOnly(s: string) { s != [] && forall i :: 0 <= i < |s| ==> s[i] == '-' }

  /** awk's `$n` past `NF` is the empty string. */
  function Field(line: string, index: nat): string {
    var fields := SplitOn(line, '|');
    if index < |fields| then fields[index] else []
  }

  function NameOf(line: string): string { Trim(Field(line, 1)) }

  function CpuOf(line: string): string { Trim(Field(line, 2)) }

  const HEADER := "Name"

  predicate IsData(line: string) {
    IsRow(line) && NameOf(line) != [] && NameOf(line) != HEADER && !DashOnly(NameOf(line))
  }

  predicate IsHeader(line: string) { IsRow(line) && NameOf(line) == HEADER }

  // ------------------------------------------------------------------ the parses

  /** The resident entries, `(name, cpu)`, in table order. */
  function Resident(ls: seq<string>): seq<(string, string)> {
    if ls == [] then [] else (if IsData(ls[0]) then [(NameOf(ls[0]), CpuOf(ls[0]))] else []) + Resident(ls[1..])
  }

  datatype Kind = Separator | Header | Data | Other

  function KindOf(line: string): Kind {
    if IsSeparator(line) then Separator
    else if IsHeader(line) then Header
    else if IsData(line) then Data
    else Other
  }

  /** The index of the last line of a kind. */
  function LastOf(ls: seq<string>, kind: Kind): (i: Option<nat>)
    ensures i.Some? ==> i.value < |ls| && KindOf(ls[i.value]) == kind && forall k :: i.value < k < |ls| ==> KindOf(ls[k]) != kind
    ensures i.None? ==> forall k :: 0 <= k < |ls| ==> KindOf(ls[k]) != kind
  {
    if ls == [] then None
    else if KindOf(ls[|ls| - 1]) == kind then Some(|ls| - 1)
    else LastOf(ls[..|ls| - 1], kind)
  }

  method ParseResident(text: string) returns (resident: seq<(string, string)>)
    ensures resident == Resident(Lines(text))
  {
    resident := [];
    var ls := Lines(text);
    for i := 0 to |ls|
      invariant resident + Resident(ls[i..]) == Resident(ls)
    {
      var line := ls[i];
      assert ls[i..][0] == line && ls[i..][1..] == ls[i + 1..];
      var found: seq<(string, string)> := [];
      if IsRow(line) {
        var name, cpu := NameOf(line), CpuOf(line);
        if name != [] && name != HEADER && !DashOnly(name) { found := [(name, cpu)]; }
      }
      Assoc(resident, found, Resident(ls[i + 1..]));
      resident := resident + found;
    }
  }

  /** The one-pass scan with three index variables. */
  method ScanStructure(text: string) returns (header: Option<nat>, lastRow: Option<nat>, lastSeparator: Option<nat>)
    ensures var ls := Lines(text);
            header == LastOf(ls, Header) && lastRow == LastOf(ls, Data) && lastSeparator == LastOf(ls, Separator)
  {
    header, lastRow, lastSeparator := None, None, None;
    var ls := Lines(text);
    for i := 0 to |ls|
      invariant header == LastOf(ls[..i], Header)
      invariant lastRow == LastOf(ls[..i], Data)
      invariant lastSeparator == LastOf(ls[..i], Separator)
    {
      var line := ls[i];
      LastStep(ls, i);
      if IsSeparator(line) {
        lastSeparator := Some(i);
        continue;
      }
      if !IsRow(line) { continue; }
      var name := NameOf(line);
      if name == [] || DashOnly(name) {
        assert HEADER[0] == 'N' && (name != [] ==> name[0] == '-');
        continue;
      }
      if name == HEADER {
        header := Some(i);
        continue;
      }
      lastRow := Some(i);
    }
    assert ls[..|ls|] == ls;
  }

  lemma LastStep(ls: seq<string>, i: nat)
    requires i < |ls|
    ensures forall kind :: LastOf(ls[..i + 1], kind) == if KindOf(ls[i]) == kind then Some(i) else LastOf(ls[..i], kind)
  {
    var next := ls[..i + 1];
    assert |next| == i + 1 && next[..i] == ls[..i] && next[i] == ls[i];
    forall kind ensures LastOf(next, kind) == if KindOf(ls[i]) == kind then Some(i) else LastOf(ls[..i], kind) {
    }
  }

  predicate Complete(ls: seq<string>) {
    && LastOf(ls, Header).Some? && LastOf(ls, Data).Some? && LastOf(ls, Separator).Some?
    && LastOf(ls, Separator).value > LastOf(ls, Data).value
  }

  // ----------------------------------------------------------------- the verdict

  const NO_ATOC := "no atoc found on target device."

  function Lower(s: string): string {
    if s == [] then []
    else [if 'A' <= s[0] <= 'Z' then (s[0] as int + 32) as char else s[0]] + Lower(s[1..])
  }

  predicate Padding(c: char) { c == ' ' || c == '\t' || c == '\r' || c == '\U{b}' || c == '\U{c}' }

  function StripPadding(s: string): string {
    if s != [] && Padding(s[0]) then StripPadding(s[1..])
    else if s != [] && Padding(s[|s| - 1]) then StripPadding(s[..|s| - 1])
    else s
  }

  predicate SaysEmpty(line: string) { Lower(StripPadding(line)) == NO_ATOC }

  datatype Status = Unverified | Empty | Ok

  function QueryStatus(available: bool, bannerOk: bool, text: string, rc: int): Status {
    if !available then Unverified
    else if (if bannerOk then rc else 1) != 0 then Unverified
    else if exists i :: 0 <= i < |Lines(text)| && SaysEmpty(Lines(text)[i]) then Empty
    else if Resident(Lines(text)) != [] && Complete(Lines(text)) then Ok
    else Unverified
  }

  const BASELINE_CPU := "CM0+"

  predicate Baseline(entry: (string, string)) {
    var base := if |entry.0| >= 2 && entry.0[..2] == "* " then entry.0[2..] else entry.0;
    (base == "DEVICE" || base == "SERAM0" || base == "SERAM1") && entry.1 == BASELINE_CPU
  }

  function Foreign(resident: seq<(string, string)>, allowed: set<string>): seq<string> {
    if resident == [] then []
    else (if !Baseline(resident[0]) && resident[0].0 !in allowed then [resident[0].0] else [])
         + Foreign(resident[1..], allowed)
  }

  method ForeignEntries(resident: seq<(string, string)>, allowed: set<string>) returns (foreign: seq<string>)
    ensures foreign == Foreign(resident, allowed)
  {
    foreign := [];
    for i := 0 to |resident|
      invariant foreign + Foreign(resident[i..], allowed) == Foreign(resident, allowed)
    {
      assert resident[i..][0] == resident[i] && resident[i..][1..] == resident[i + 1..];
      var found: seq<string> := [];
      if !Baseline(resident[i]) && resident[i].0 !in allowed { found := [resident[i].0]; }
      Assoc(foreign, found, Foreign(resident[i + 1..], allowed));
      foreign := foreign + found;
    }
  }

  datatype Verdict =
    | Clear
    | BlankBoard
    | Replaced(foreign: seq<string>)
    | RefusedForeign(foreign: seq<string>)
    | RefusedUnverified

  predicate Refused(v: Verdict) { v.RefusedForeign? || v.RefusedUnverified? }

  function Decide(status: Status, foreign: seq<string>, replace: bool): Verdict {
    if status == Unverified then (if replace then Replaced([]) else RefusedUnverified)
    else if foreign != [] then (if replace then Replaced(foreign) else RefusedForeign(foreign))
    else if status == Empty then BlankBoard else Clear
  }
}
