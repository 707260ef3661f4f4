# Verified model of the SDK's gates and transformers

The SDK's release gates are Python scripts that read text, match it, rewrite it, or add
up address ranges. A wrong answer from one of them passes a broken release or lets an
application overwrite the boot table, silently. This project models the decision parts
of eight of those scripts in Dafny and proves what they are for.

The scripts' statement loops are methods with their invariants, proved equal to a
recursive specification function over the same data; a regular expression, a library
call or a comprehension of theirs is a function. The properties are lemmas about those
functions, so they hold of what the methods return. What decides a verdict is also said
without those functions, in the characters of the text, the rows of the table or the
records of the snapshot, and proved equivalent on every input.

| module | script | subject |
|---|---|---|
| `AbiFlatten`, `AbiTails`, `AbiFlattenLaws`, `AbiFlattenText`, `AbiFlattenShape`, `AbiMembers` | `abi_snapshot.py` | the declaration splitter and the member splitter |
| `AbiDiff`, `AbiDiffLaws`, `AbiMessages`, `AbiOrder`, `AbiGreedy`, `AbiPairing` | `abi_snapshot.py` | the snapshot diff and its matcher |
| `AbiIncludes`, `AbiNesting` | `abi_snapshot.py` | unconditional includes by preprocessor depth |
| `CitationText`, `CitationGate`, `CitationFacts`, `CitationEdits`, `CitationFences`, `CitationFix`, `CitationExact`, `CitationNested`, `CitationSamples`, `CitationAnchors`, `CitationLines`, `CitationReads`, `CitationVerdicts`, `CitationReports` | `check_changelog_citations.py` | the citation checker and the fixer |
| `HunkLines`, `HunkHeads`, `HunkExact` | `check_changelog_citations.py` | the zero-context diff reader |
| `FlashGate`, `FlashVerdicts`, `FlashSafety` | `check_atoc_reservation.py` | the MRAM layout gate |
| `AtocAssembly`, `AtocConfigs`, `AtocTable`, `AtocVerdicts`, `AtocTruncation` | `aen_atoc.py` | the assembly guard and the pre-burn guard |
| `Renames`, `PinMaps`, `PinMacros`, `RenameTargets` | `alp_template.py` | core, pad, macro and doc renames of a scaffold |
| `Splice` | `check_bootstrap_manifest.py`, `check_changelog_citations.py` | back-to-front and forward text edits |
| `ScriptLines`, `ScriptOpeners`, `ScriptShell` | `check_bootstrap_manifest.py` | heredoc and here-string line states |
| `Fold`, `FoldText` | `assemble_changelog.py` | folding changelog fragments |
| `EthMac`, `EthSerials` | `alp_eth_mac.py` | serial to MAC encoding |
| `PyText` | | shared text primitives: strip, split and join, numerals, string order |

## What the proofs found

Where a promise of the code's own documentation is false, the model keeps the code, a
lemma shows a failing case, and another gives the exact condition under which the
promise holds.

- **Splitter.** `depth` equals the number of real brackets on the stack exactly as long
  as no `)` or `]` has closed an `extern "C"` brace; such a bracket can drive it below
  zero, and `extern "C"{)(;` is accepted with the declaration `)(;`. On accepted text
  every declaration is whole if and only if the depth never falls below zero; in
  `f( extern "C" {);` such a bracket does no harm. An `extern "C" {` that is never closed
  is accepted; nothing is left open if and only if linkage braces are opened and closed
  as such equally often.
- **Diff.** The pairing is greedy, not maximum: two snapshots show a loss reported
  although a different pairing explains both. The matcher explains as many losses by
  their content as any pairing could, on every choice among the losses and gains, if and
  only if losses that share a candidate of equal content share all of them. A
  value-changed move never takes an entry that another symbol could have matched exactly
  if and only if no entry is contested in that way between two sub-kinds; a content hash
  that fixes the sub-kind rules that out. Symbols of a brand-new
  header never become move targets.
- **Includes.** The single `guard_depth` comparison reports a conditional include when a
  conditional follows the guard, when the guard has an `#else`, or when a second opener
  uses the guard's token. A blank line inside the guard's two-line opening hides the
  guard: its includes are dropped, and a later opener with its token can let a
  conditional include through, so that case is not on the safe side either. On every
  file the report is right if and only if no include stands in another group without
  being deeper than the last opener above it, and none stands in the guard's first arm
  without an opener above it.
- **Citations.** A rewritten citation passes afterwards if and only if its own anchor is
  not another citation that the fixer rewrites, or its new range holds the new text of
  that one; concrete texts show the checker refusing what the fixer wrote, and passing it
  for the second reason. A second run of the fixer changes nothing if and only if no
  citation's rewritten anchor stands outside its range and elsewhere in the file, with
  room there; a concrete text is edited again. The checker refuses two things the fixer does not
  touch: an unanchored citation past the end of its file, and a new unanchored one.
- **Hunk reader.** A no-newline marker between the removed and the added lines of a hunk
  makes the reader stop one line early, and a line that starts `++ ` is then read as a
  file header. When every hunk adds lines of its own, a file's hunks are read as what
  they mean if and only if each one with another below it keeps the path, and the last
  spells a readable header if any: `++ b/` and a path, or `++ /dev/null`. Any other text
  behind `++ ` has the whole diff refused, even at the end of a file.
- **Flash gate.** For maps without YAML booleans as bases, a clean report protects the
  boot table's band on every map if and only if the aperture is a non-empty window. With
  such bases allowed, over such a window and for an owner listed from an address above 0,
  it protects the band if and only if every runtime-writable row with a boolean base ends
  at or below it.
- **Pre-burn guard.** A line that could read as a separator between two data rows lets a
  truncated transcript pass as complete; for an uncoloured transcript that is the only way.
- **Pins.** The pad map passes its ambiguity check when one entry keeps a pad that
  another moves; the doc map's `resolved` table catches that case. The macro rewrite
  is simultaneous renaming if and only if no rename lands on a later key, and does not
  notice when one does; the pad rewrite does.
- **Changelog fold.** Folding in two steps equals folding at once exactly when the first
  fragment opens with a non-blank line; the loader accepts fragments that do not.
- **Script lines.** A comment that mentions `<<WORD`, or an arithmetic shift such as
  `: $((1 <<A))`, opens a block the shell does not see, after which a line of a real body
  can be taken for a comment. Whatever the program that runs the script takes for an
  opener, the scanner stands where it does on every line if and only if the two agree on
  every line the program reads as code.

## Model

| member | source | states |
|---|---|---|
| `AbiFlatten.Flatten` | scripts/abi_snapshot.py:243-340 | The one-pass splitter with its five variables answers what the step-by-step scan says: the declarations, an unmatched closing bracket, or an unterminated declaration. |
| `AbiFlatten.DepthIsRealCount` | scripts/abi_snapshot.py:264-330 | At every step `depth` is the number of real brackets open if and only if no `)` or `]` has closed a linkage brace so far. |
| `AbiFlatten.RunLag` | scripts/abi_snapshot.py:264-330 | Over any run the depth falls behind the real bracket count by exactly the number of such closings. |
| `AbiTails.OpensAggregateExact` | scripts/abi_snapshot.py:223-281 | A brace is taken for an aggregate's if and only if the text in front of it, up to whitespace at its end, ends in `struct`, `union` or `enum`, alone or with whitespace and a name behind it, after nothing or whitespace; whatever whitespace the buffer has collapsed. |
| `AbiTails.OpensLinkageExact` | scripts/abi_snapshot.py:240-280 | A brace is taken for a linkage brace if and only if the text in front of it ends in `extern`, whitespace and `"C"`, after nothing or whitespace; what is taken back is those words and the whitespace. |
| `AbiFlattenLaws.CollapseNormalises` | scripts/abi_snapshot.py:148-150 | Feeding text through the whitespace rule of the scan and stripping gives the snapshot's own normalised text. |
| `AbiFlattenLaws.RunItems` | scripts/abi_snapshot.py:243-340 | A printed header, in any nesting of `extern "C" { }`, leaves the scanner ready again with exactly its declarations appended. |
| `AbiFlattenLaws.SplitRecovers` | scripts/abi_snapshot.py:243-340 | Round trip: prototypes, aggregates and inline functions printed with any whitespace between them and wrapped in any nesting of linkage blocks split into exactly those declarations, normalised. |
| `AbiFlattenText.ExternCTailText` | scripts/abi_snapshot.py:240-240 | What a linkage brace takes back from the buffer is `extern "C"` and whitespace, nothing else. |
| `AbiFlattenText.SplitConserves` | scripts/abi_snapshot.py:264-340 | On any accepted input the emitted text has the source's non-whitespace characters in order, less the linkage wrappers. |
| `AbiFlattenShape.WholeExact` | scripts/abi_snapshot.py:264-340 | On any accepted input every emitted declaration is balanced, normalised and ends in `;` or `}` if and only if the depth never falls below zero. |
| `AbiFlattenShape.SplitWhole` | scripts/abi_snapshot.py:264-340 | So they are when no `)` or `]` closes a linkage brace. |
| `AbiFlattenShape.LeftOpenExact` | scripts/abi_snapshot.py:264-340 | On any accepted input the brackets left open are as many as linkage braces opened less those closed as such, none if and only if the two are equal, and as many of them are real as there are mis-closing brackets. |
| `AbiFlattenShape.SplitNests` | scripts/abi_snapshot.py:264-340 | On any accepted input the text nests if and only if no `)` or `]` closes a linkage brace; then only linkage braces are left open, and none if and only if opens and closes are equally many. |
| `AbiFlattenShape.DepthCanGoNegative` | scripts/abi_snapshot.py:311-320 | A concrete prefix on which a `)` closes a linkage brace and the depth is -1. |
| `AbiFlattenShape.UnclosedAccepted` | scripts/abi_snapshot.py:332-340 | A linkage block that is never closed is accepted, with no declaration. |
| `AbiFlattenShape.MisclosedAccepted` | scripts/abi_snapshot.py:311-340 | A text whose `)` closes a linkage brace is accepted with a declaration that is not balanced. |
| `AbiFlattenShape.MisclosedWhole` | scripts/abi_snapshot.py:311-340 | Another is accepted with a declaration that is whole. |
| `AbiMembers.SplitTopLevel` | scripts/abi_snapshot.py:348-370 | The member loop returns the stripped, non-empty pieces between the separators at depth 0. |
| `AbiMembers.SplitPrinted` | scripts/abi_snapshot.py:348-370 | Round trip: balanced pieces with no outer separator, joined with the separator, come back stripped and without the empty ones; as they are when already stripped. |
| `AbiMembers.RawJoins` | scripts/abi_snapshot.py:348-370 | On any text, balanced or not, the pieces joined with the separator are the text. |
| `AbiMembers.CutsExact` | scripts/abi_snapshot.py:348-370 | The text is cut at exactly the separators before which brackets are opened and closed equally often. |
| `AbiMembers.KeptExact` | scripts/abi_snapshot.py:348-370 | A piece is kept, without the whitespace around it, if and only if it is not all whitespace. |
| `AbiDiff.MemberLines` | scripts/abi_snapshot.py:737-760 | The member loop emits the detail lines of the two lists. |
| `AbiDiff.DetailsExact` | scripts/abi_snapshot.py:737-760 | A detail line is present for exactly the indices at which the two member lists differ, with both old and new text. |
| `AbiDiff.MemberDiffDetermines` | scripts/abi_snapshot.py:737-760 | The old members and the detail lines together determine the new members. |
| `AbiDiff.CollectSyms` | scripts/abi_snapshot.py:1166-1179 | The symbol loop collects changed, lost and gained symbols of one category. |
| `AbiDiff.CollectCats` | scripts/abi_snapshot.py:1163-1179 | The category loop does so for one header. |
| `AbiDiff.CollectAll` | scripts/abi_snapshot.py:1143-1179 | The header loop does so for both snapshots; a brand-new header contributes messages but no gained symbols. |
| `AbiDiff.CountNames` | scripts/abi_snapshot.py:1193-1200 | The counting loops hold, for every entry, how many entries carry its category, name and kind. |
| `AbiDiff.FindCandidate` | scripts/abi_snapshot.py:1211-1243 | The candidate scan finds the first unmatched gain that fits, or none. |
| `AbiDiff.MatchOne` | scripts/abi_snapshot.py:1210-1263 | One loss: exact match first, then the unique value-changed match, else allowed or removed. |
| `AbiDiff.ReportLosses` | scripts/abi_snapshot.py:1209-1263 | The match loop consumes the unmatched list in order and reports every loss. |
| `AbiDiff.ReportGains` | scripts/abi_snapshot.py:1265-1266 | What stays unmatched is reported as added. |
| `AbiDiff.RunDiff` | scripts/abi_snapshot.py:1045-1268 | Traversal, match loop and leftovers together are the diff. |
| `AbiMessages.ChangedExact` | scripts/abi_snapshot.py:1176-1179 | A symbol is reported CHANGED, once, if and only if both snapshots have its header, both tables of its category hold it, and the two hashes differ. |
| `AbiMessages.MembersExact` | scripts/abi_snapshot.py:737-756 | Its member lines, for a typedef, stand for exactly the indices at which the fields or the enumerators differ, each once, with the old and the new text. |
| `AbiMessages.HeadersExact` | scripts/abi_snapshot.py:1143-1162 | A header is reported removed if and only if it is gone and some symbol of it has no allowlist entry or it has no symbol, and added if and only if it is new. |
| `AbiMessages.LossesExact` | scripts/abi_snapshot.py:1259-1263 | A loss no move explains is reported removed if and only if it has no allowlist entry of its own, and allowed with its entry otherwise; so are the symbols of a covered header. |
| `AbiMessages.MovesExact` | scripts/abi_snapshot.py:1244-1266 | A move is reported moved, and changed too when its value is; a gain is reported added if and only if no move took it. |
| `AbiMessages.MovedDetailExact` | scripts/abi_snapshot.py:766-790 | What a changed move says of the content: the differing members of a typedef; without any, the two texts if they differ; else only that the hash does. |
| `AbiOrder.TraversalOrdered` | scripts/abi_snapshot.py:1143-1179 | Losses, gains and the lines of the traversal come by header, category and symbol, and the lines on one symbol as its CHANGED line, its fields, its enumerators, by index. |
| `AbiDiffLaws.CollectExact` | scripts/abi_snapshot.py:1143-1179 | The losses and gains collected are exactly the symbols that vanished from, or appeared in, a header both snapshots have. |
| `AbiDiffLaws.DecideFacts` | scripts/abi_snapshot.py:1193-1263 | Every decision is justified by the tables, gains are used at most once, and no loss has a leftover exact partner. |
| `AbiDiffLaws.LossesInOrder` | scripts/abi_snapshot.py:1209-1263 | Each loss is reported by exactly one MOVED, ALLOWED or REMOVED line, in order. |
| `AbiDiffLaws.GainsOnce` | scripts/abi_snapshot.py:1209-1266 | Each gain is used by exactly one MOVED line or reported by one ADDED line. |
| `AbiDiffLaws.GateSound` | scripts/abi_snapshot.py:1143-1268 | When no line blocks, every symbol of every old header is still there, or in a current header it includes in one hop, or covered by its own allowlist entry. |
| `AbiDiffLaws.NoMissedMove` | scripts/abi_snapshot.py:1209-1263 | Nothing reported lost has a leftover partner of equal category, name and content that its header includes, and every move target is a header both snapshots have. |
| `AbiDiffLaws.ChangedMoveTakesNoOther` | scripts/abi_snapshot.py:1221-1243 | When the hash fixes the kind, a value-changed move keeps the kind and never takes an entry another lost symbol could match exactly. |
| `AbiDiffLaws.ChangedMoveNeedsHashKind` | scripts/abi_snapshot.py:1221-1243 | Without that assumption a concrete diff violates it. |
| `AbiPairing.ChangedMoveExact` | scripts/abi_snapshot.py:1221-1243 | Whatever losses and gains are drawn, a value-changed move never takes an entry another loss could match exactly, if and only if no gain is contested in that way between losses of two kinds. |
| `AbiDiffLaws.GreedyIsNotMaximum` | scripts/abi_snapshot.py:1209-1243 | Losses and gains on which a loss that could have been explained is reported lost. |
| `AbiGreedy.GreedyLosesOne` | scripts/abi_snapshot.py:1143-1263 | Two snapshots whose diff reports such a loss REMOVED. |
| `AbiGreedy.NoExplainableLoss` | scripts/abi_snapshot.py:1209-1263 | When the hash fixes the kind and no gain fits two losses exactly, every loss with an exact candidate is reported moved. |
| `AbiPairing.GreedyMaximumExact` | scripts/abi_snapshot.py:1209-1263 | When the hash fixes the kind, the matcher explains as many losses by equal content as any pairing, whatever losses and gains are drawn in whatever order, if and only if losses that share an exact candidate share all of them. |
| `AbiDiffLaws.DiffSelf` | scripts/abi_snapshot.py:1045-1268 | A snapshot does not differ from itself. |
| `AbiIncludes.UnconditionalIncludes` | scripts/abi_snapshot.py:850-916 | The two depth counters report the includes whose true nesting is no deeper than the last guard opener. |
| `AbiNesting.NestExact` | scripts/abi_snapshot.py:888-916 | The groups kept while scanning are exactly those opened above the line whose openers have outnumbered the closers ever since, outermost first, each marked if and only if an arm of its own has begun. |
| `AbiIncludes.UnconditionalCounted` | scripts/abi_snapshot.py:841-916 | An include outside every group or in the guard's first arm only is reported if and only if it stands in no group or below some opener. |
| `AbiIncludes.ScanExact` | scripts/abi_snapshot.py:841-916 | On every file the lines reported are exactly the unconditional includes if and only if no include leaks (in another group, but no deeper than the last opener above it) and none is dropped (in the guard's first arm, with no opener above it). |
| `AbiIncludes.PlainScan` | scripts/abi_snapshot.py:841-916 | With the guard's `#define` on the next line the report is right or too long, and right if and only if no include leaks. |
| `AbiIncludes.NoOpenerScan` | scripts/abi_snapshot.py:841-916 | With no line the scan sees as an opener the report is right or too short, and right if and only if no include stands in the guard's first arm. |
| `AbiIncludes.NoGuardExact` | scripts/abi_snapshot.py:850-916 | Without a guard the report is exact on every file. |
| `AbiIncludes.WholeFileExact` | scripts/abi_snapshot.py:841-916 | Under one whole-file guard with nothing conditional around it, no other arm and no second opener, the report is exact. |
| `AbiIncludes.ConditionalAfterGuard` | scripts/abi_snapshot.py:888-916 | A conditional include below the guard's end is reported as unconditional. |
| `AbiIncludes.ElseOfGuard` | scripts/abi_snapshot.py:888-916 | So is one in the guard's `#else` arm. |
| `AbiIncludes.SecondOpener` | scripts/abi_snapshot.py:841-847 | So is one under a conditional that holds a second opener with the guard's token. |
| `AbiIncludes.BlankInGuard` | scripts/abi_snapshot.py:812-847 | A blank line inside the guard's opening makes the scan drop the guard's includes. |
| `AbiIncludes.BlankGuardLeaks` | scripts/abi_snapshot.py:812-847 | And with a later opener in a conditional it makes the scan report that conditional's include. |
| `CitationText.StripFencedBlocks` | scripts/check_changelog_citations.py:505-525 | The fence loop blanks fenced lines in place of deleting them. |
| `CitationReads.FencedExact` | scripts/check_changelog_citations.py:505-525 | A line of the text is blanked if and only if it is a fence or an odd number of fences stand above it. |
| `CitationReads.BodyExact` | scripts/check_changelog_citations.py:364-368 | A span between backticks is a citation if and only if it is a path, a colon and one number or two with a dash between. |
| `CitationReads.PathExact` | scripts/check_changelog_citations.py:365-365 | A path is an optional dot, a letter, digit or underscore, any of these and `/.+-`, a dot, and one of nineteen extensions. |
| `CitationReads.CitationsExact` | scripts/check_changelog_citations.py:364-368 | A span is found as a citation if and only if it is one and the span before it was not found. |
| `CitationReads.CiteLineExact` | scripts/check_changelog_citations.py:682-682 | The line a citation is said to stand on is a line of the text and holds it. |
| `CitationReads.InRangeExact` | scripts/check_changelog_citations.py:749-749 | A range of lines holds a text if and only if some occurrence of the text in the file starts on or below its first line and ends on or above its last. |
| `CitationLines.ZeroExact` | scripts/check_changelog_citations.py:749-749 | A range that starts at line 0 holds the last line when it ends there, and nothing but the empty text otherwise: the slice starts at -1. |
| `CitationLines.LinesExact` | scripts/check_changelog_citations.py:702-702 | The lines of a cited file are exactly those its text reads as: each with one of the breaks, a carriage return taking the line feed behind it, and a last one that is none when empty. |
| `CitationAnchors.AnchorOfText` | scripts/check_changelog_citations.py:705-725 | The anchor of a citation is read off the text behind its closing backtick. |
| `CitationAnchors.AnchorExact` | scripts/check_changelog_citations.py:371-371 | That text has the anchor `t` if and only if it reads whitespace, `(`, whitespace, one of three opening marks, `t`, a closing mark, where `t` is 4 to 120 characters long and holds no closing mark; line breaks are whitespace on either side of the parenthesis. |
| `CitationAnchors.OpeningExact` | scripts/check_changelog_citations.py:398-406 | It opens like an anchor if and only if it reads so far as the opening mark, and is malformed if and only if a closing mark follows at once. |
| `CitationGate.AnchorLineHits` | scripts/check_changelog_citations.py:589-614 | The find loop lists the lines on which the needle starts. |
| `CitationGate.CheckOne` | scripts/check_changelog_citations.py:633-858 | The checker grades every visible citation in order, with its running counts. |
| `CitationVerdicts.MissExact` | scripts/check_changelog_citations.py:406-565 | An unanchored citation is a near miss if and only if the text behind opens like an anchor and is none, or a parenthesis opens at most 40 characters before it and a quote comes behind it before any parenthesis or blank line. |
| `CitationVerdicts.VerdictExact` | scripts/check_changelog_citations.py:677-856 | A citation passes silently if and only if its file is local and either its anchor stands in its range, or it has no anchor, ends within the file, is no near miss and is not new under enforcement; it is noted as drifted, skipped, or an error otherwise, each exactly. |
| `CitationReports.PlainKindsExact` | scripts/check_changelog_citations.py:698-744 | Which error an unanchored citation gets: no file, a doubled opening, past the end of its file, a near miss, or new, in that order. |
| `CitationReports.AnchoredKindsExact` | scripts/check_changelog_citations.py:747-853 | Which error an anchored one gets: new and wrong, its text gone, on several lines, shorter than 16, without room, or stale before a release. |
| `CitationReports.AnchoredGradeExact` | scripts/check_changelog_citations.py:725-853 | An anchored citation of a local file gets the verdict on the text its anchor has. |
| `CitationVerdicts.FindingsExact` | scripts/check_changelog_citations.py:633-858 | Over a whole text: a citation is missing from errors, notes and skips if and only if it passes, and the two counts are of the local and of the anchored ones. |
| `CitationReports.FindingsInOrder` | scripts/check_changelog_citations.py:684-856 | Errors, skips and notes are each in the order of the citations. |
| `CitationFacts.HitsExact` | scripts/check_changelog_citations.py:589-614 | The hit list is strictly increasing and holds exactly the lines on which an occurrence starts. |
| `CitationFacts.HitHolds` | scripts/check_changelog_citations.py:617-630 | A range that starts on a hit and is as wide as the needle's own line breaks holds the needle. |
| `CitationFacts.PrintedReads` | scripts/check_changelog_citations.py:1045-1047 | The citation text a rewrite prints is read back as the same path and range. |
| `CitationFacts.HalvesAgree` | scripts/check_changelog_citations.py:677-856 | Case by case: a silent pass is never rewritten, a drift note is rewritten without a mark to the noted line, and whatever needs a human or a mark is an error in the checker. |
| `CitationFacts.ErrorsHandled` | scripts/check_changelog_citations.py:890-1050 | Conversely every error is rewritten or handed to a human, save the two unanchored cases the fixer only counts. |
| `CitationFacts.RepairChoice` | scripts/check_changelog_citations.py:985-1044 | A rewrite names the nearest hit, the later one on a tie, in bounds, with the old width or the anchor's line breaks, whichever is more. |
| `CitationFacts.RepairInRange` | scripts/check_changelog_citations.py:976-1044 | The range a rewrite names holds the anchor. |
| `CitationFacts.RewriteChoice` | scripts/check_changelog_citations.py:890-1050 | Only anchored citations of known, non-foreign files are rewritten. |
| `CitationEdits.EditsSplice` | scripts/check_changelog_citations.py:1055-1062 | Splicing the fixer's edits into the text replaces exactly the rewritten citations and nothing else. |
| `CitationFences.StripBreaks` | scripts/check_changelog_citations.py:505-525 | Fence blanking keeps every offset and moves no line break. |
| `CitationFences.StripEdits` | scripts/check_changelog_citations.py:883-888 | Finding citations in the blanked copy and editing the original is consistent: blanking the edited text is editing the blanked text. |
| `CitationFix.CollectRepairs` | scripts/check_changelog_citations.py:890-1050 | The fixer's loop collects edits, rewrites, problems and the unanchored count in order. |
| `CitationFix.FixOne` | scripts/check_changelog_citations.py:861-1062 | The fixer returns the original text with all edits made at once, and its three reports. |
| `CitationVerdicts.RewriteExact` | scripts/check_changelog_citations.py:890-1050 | A citation is rewritten to a range if and only if its file is local, its anchor is not in its range, and the range starts at the nearest line on which the anchor starts, the later on a tie, and fits the file. |
| `CitationReports.AnchoredRepairExact` | scripts/check_changelog_citations.py:976-1046 | A rewrite is marked ambiguous if and only if the anchor starts on two lines, and short if and only if it does not and has fewer than 16 characters; a human is asked if and only if there is no such line or no room. |
| `CitationReports.AnchoredRepairOf` | scripts/check_changelog_citations.py:939-1050 | An anchored citation of a local file gets the repair of that text. |
| `CitationReports.PlainRepairExact` | scripts/check_changelog_citations.py:896-953 | Without an anchor nothing is rewritten: it is counted if it is no failed attempt, and left to a human otherwise. |
| `CitationReports.ReportsExact` | scripts/check_changelog_citations.py:890-1050 | The rewrites and the problems reported are exactly the citations rewritten and left to a human, in order. |
| `CitationFix.FixedTextPieces` | scripts/check_changelog_citations.py:861-1062 | After the fix the same citations are found in the same places, each rewritten one with its new text. |
| `CitationFix.FixThenCheck` | scripts/check_changelog_citations.py:861-1062 | A rewritten citation whose anchor is stable names the same file and the new range and passes in range under every mode, strict lines included. |
| `CitationFix.FixTwice` | scripts/check_changelog_citations.py:861-1062 | When every anchor is stable a second run changes nothing. |
| `CitationExact.FixPassesExact` | scripts/check_changelog_citations.py:861-1062 | A rewritten citation passes in range afterwards, in every mode, if and only if its anchor is stable or its new range holds the new text of the citation that is its anchor. |
| `CitationExact.FixedExact` | scripts/check_changelog_citations.py:1050-1062 | A text is left as it is if and only if none of its citations is rewritten. |
| `CitationExact.FixTwiceExact` | scripts/check_changelog_citations.py:861-1062 | A second run changes nothing if and only if no citation has a rewritten anchor whose new text is a possible anchor, is outside the range then named, and is found in the file with room for the range. |
| `CitationSamples.UnstableButPasses` | scripts/check_changelog_citations.py:861-1062 | On every text of one shape a citation with a rewritten anchor passes all the same. |
| `CitationSamples.SecondRunEdits` | scripts/check_changelog_citations.py:861-1062 | On every text of another shape a second run edits again. |
| `CitationSamples.FixTwiceFails` | scripts/check_changelog_citations.py:861-1062 | A concrete text of that shape: running the fixer twice is not running it once. |
| `CitationSamples.DriftRewritten` | scripts/check_changelog_citations.py:861-1062 | On every text: an anchored citation of a local file whose anchor is not in its range but in the file, with room, reads the nearest such line afterwards, and the same citations are found. |
| `CitationSamples.WrappedMoves` | scripts/check_changelog_citations.py:371-1062 | For every path and quoted text: a citation with its anchor in parentheses on the next line is rewritten. |
| `CitationFix.AnchorKeptIffStable` | scripts/check_changelog_citations.py:371-371 | An anchor reads the same after the fix if and only if it is not itself a citation the fixer rewrites. |
| `CitationNested.NestedFixFails` | scripts/check_changelog_citations.py:861-1062 | On every text of one shape, an anchored citation whose anchor is another citation, the fixer rewrites both and the outer one is then an error in every mode. |
| `CitationNested.FixThenCheckFails` | scripts/check_changelog_citations.py:861-1062 | A concrete text of that shape: a citation the fixer rewrites is refused by the checker. |
| `HunkLines.ReadDiff` | scripts/check_changelog_citations.py:1186-1220 | The loop over path, skip count and added lines answers what the step function says, or refuses an unreadable path. |
| `HunkLines.HeaderReads` | scripts/check_changelog_citations.py:1147-1147 | A printed hunk header reads back as its three numbers, with or without the short counts. |
| `HunkHeads.HeadExact` | scripts/check_changelog_citations.py:1147-1147 | A line is a hunk header with given counts if and only if it spells `@@ -A +B @@` with them, a side without a count having one. |
| `HunkHeads.StepExact` | scripts/check_changelog_citations.py:1186-1220 | Outside a hunk a line names a file, names none, ends the reading, or is passed over, exactly as its text says; inside one it is passed over. |
| `HunkHeads.HunkStep` | scripts/check_changelog_citations.py:1214-1219 | A hunk header under a path adds exactly its new lines to that path, leaves the others alone and has its lines passed over. |
| `HunkLines.RunHunk` | scripts/check_changelog_citations.py:1186-1220 | One printed hunk records exactly its new-side lines; only a misleading one affects what follows. |
| `HunkLines.HunkExact` | scripts/check_changelog_citations.py:1186-1220 | After one hunk the reader stands under the file's path if and only if the hunk keeps it, and has not refused the diff if and only if the hunk is readable. |
| `HunkLines.ReadsPrinted` | scripts/check_changelog_citations.py:1186-1220 | The reader inverts the printer on any list of files and zero-context hunks, whatever the content looks like, when each hunk with another below it keeps the path and the last is readable. |
| `HunkLines.ReadsPrintedText` | scripts/check_changelog_citations.py:1186-1220 | The same on the diff as one text with its final line break. |
| `HunkExact.HunksExact` | scripts/check_changelog_citations.py:1186-1220 | For hunks that each add lines of their own that condition is exact: the lines recorded for a file are what the hunks mean if and only if it holds. |
| `HunkExact.MisleadingHunk` | scripts/check_changelog_citations.py:1186-1220 | After a hunk that spells another path the file's next hunk is recorded under that one. |
| `HunkExact.MisleadingDiff` | scripts/check_changelog_citations.py:1186-1220 | A concrete diff whose reading is not what it means. |
| `HunkExact.RefusedDiff` | scripts/check_changelog_citations.py:1186-1220 | A concrete diff of one hunk that is refused. |
| `FlashGate.CheckTiling` | scripts/check_atoc_reservation.py:462-557 | Collecting, sorting and sweeping report the gaps, overlaps, straddles and overflow of the specification, and the skipped rows. |
| `FlashVerdicts.TilingMeans` | scripts/check_atoc_reservation.py:462-557 | A gap, an overlap, a straddle or an overflow is reported if and only if the rows that reach into the aperture have it, in address order. |
| `FlashVerdicts.SkipsExact` | scripts/check_atoc_reservation.py:500-513 | The notes name exactly the rows that have no address or no size. |
| `FlashGate.SweepPieces` | scripts/check_atoc_reservation.py:523-557 | The cursor loop equals the recursive sweep. |
| `FlashGate.CheckClasses` | scripts/check_atoc_reservation.py:560-617 | The flash-class loop reports exactly the contained rows whose `carveout` is not `false`. |
| `FlashVerdicts.NotFlashExact` | scripts/check_atoc_reservation.py:604-616 | With an aperture, a row is reported as misclassed if and only if it lies in the aperture, is not all of it, and its flag is not the boolean false. |
| `FlashVerdicts.CleanFlags` | scripts/check_atoc_reservation.py:604-616 | So in a clean preset every contained row but the alias carries `carveout: false`. |
| `FlashGate.CheckTop` | scripts/check_atoc_reservation.py:620-654 | The top rule reports an unowned or misnamed top and every runtime-writable row there. |
| `FlashGate.CheckPreset` | scripts/check_atoc_reservation.py:657-795 | The preset check is the ceilings, the top rule with or without an aperture, the tiling and the class agreement, in order. |
| `FlashVerdicts.PresetExact` | scripts/check_atoc_reservation.py:657-795 | With an aperture, a failure is reported if and only if a core's window reaches past the band, the top is unowned, misnamed or writable, the tiling fails, or a contained row is misclassed. |
| `FlashVerdicts.NoApertureExact` | scripts/check_atoc_reservation.py:744-795 | Without one, if and only if a window reaches past the band, or the top, then the highest end of a row, is misnamed or writable. |
| `FlashVerdicts.CleanWithoutAperture` | scripts/check_atoc_reservation.py:744-795 | A clean report there: the smallest row at the highest end is named `atoc`, no row the application may write ends there, and every window ends at or below the first `atoc` row. |
| `FlashGate.SortBySorts` | scripts/check_atoc_reservation.py:523-523 | The sort is sorted and has the same elements. |
| `FlashGate.SortByKeeps` | scripts/check_atoc_reservation.py:523-523 | And each as often as before. |
| `FlashSafety.GapsExact` | scripts/check_atoc_reservation.py:499-557 | Once a row is contained, the addresses in reported gaps are exactly the aperture addresses no contained row covers, whatever the sizes. |
| `FlashSafety.TilingExact` | scripts/check_atoc_reservation.py:499-557 | For rows of positive size nothing is reported if and only if the contained rows partition the aperture. |
| `FlashSafety.CleanTilingPartitions` | scripts/check_atoc_reservation.py:499-557 | A clean sweep means a partition even with rows of other sizes. |
| `FlashSafety.TopOwner` | scripts/check_atoc_reservation.py:712-744 | A clean preset has a smallest row at the top, named `atoc`, and no runtime-writable row of positive size there. |
| `FlashSafety.AliasOwnerMeansEmpty` | scripts/check_atoc_reservation.py:514-515 | A whole-device alias owns the top only when no other row lies in the aperture. |
| `FlashSafety.BootTableBandSafe` | scripts/check_atoc_reservation.py:657-795 | End to end: with an aperture resolved and nothing reported, no row the application may write at run time shares an address with the `atoc` row that owns the aperture top. |
| `FlashSafety.BandSafeExact` | scripts/check_atoc_reservation.py:657-795 | With YAML boolean bases allowed: over a window with nothing reported and an addressed owner above address 0, no runtime-writable row shares an address with the owner if and only if every runtime-writable row with a boolean base ends at or below it. |
| `FlashSafety.ApertureExact` | scripts/check_atoc_reservation.py:657-795 | A clean report protects the band of every map with plain bases if and only if the aperture is a non-empty window. |
| `FlashSafety.EmptyApertureUnguarded` | scripts/check_atoc_reservation.py:657-795 | With a zero-sized aperture a clean report can leave the band writable. |
| `FlashSafety.BooleanBaseUnguarded` | scripts/check_atoc_reservation.py:666-674 | So it can with a YAML boolean as a base, which is a span but has no extent. |
| `AtocAssembly.Validate` | scripts/aen_atoc.py:154-219 | A config is accepted exactly when its staged entries lie in their cores' windows, no two share an address, and the A32 is not mixed with an M55. |
| `AtocAssembly.CollectStaged` | scripts/aen_atoc.py:163-193 | The first loop refuses the first faulty entry or lists the staged ones in order. |
| `AtocAssembly.FindCollision` | scripts/aen_atoc.py:195-203 | The second loop reports a collision exactly when two staged entries share an address. |
| `AtocAssembly.FindMix` | scripts/aen_atoc.py:211-219 | The mix is refused exactly when an A32 entry and an M55 entry are both staged. |
| `AtocConfigs.FaultExact` | scripts/aen_atoc.py:163-193 | One entry alone passes, or has the fault it has, exactly by its address and the bytes of its core; the five cases with the parts' own numbers. |
| `AtocConfigs.AcceptsExact` | scripts/aen_atoc.py:154-219 | What the guard accepts, in those numbers: every staged address readable and in its core's bytes, no two equal, no A32 beside an M55. |
| `AtocAssembly.StagedBelowBand` | scripts/check_atoc_reservation.py:684-702 | Together with a clean preset check, no accepted staged address reaches the `atoc` band. |
| `AtocTable.ParseResident` | scripts/aen_atoc.py:363-385 | The row loop lists the data rows' name and cpu, in order. |
| `AtocTable.ScanStructure` | scripts/aen_atoc.py:388-412 | The three indices are the last header, data and separator lines. |
| `AtocTable.ForeignEntries` | scripts/aen_atoc.py:518-535 | The loop lists the names that are neither baseline nor allowed. |
| `AtocVerdicts.BaselineExact` | scripts/aen_atoc.py:314-532 | An entry is baseline if and only if it is one of three names, with or without the bank marker, on `CM0+`. |
| `AtocVerdicts.ForeignExact` | scripts/aen_atoc.py:518-535 | A name is foreign if and only if some entry has it, is not baseline, and the name as it stands is not about to be rewritten. |
| `AtocVerdicts.SeparatorExact` | scripts/aen_atoc.py:323-323 | A line is a separator if and only if it is dashes and pluses between two pluses, with blanks around. |
| `AtocVerdicts.DataExact` | scripts/aen_atoc.py:378-384 | A row is data if and only if its first cell is not empty, not `Name` and not dashes only, and the heading if and only if it is `Name`. |
| `AtocVerdicts.ReplyExact` | scripts/aen_atoc.py:337-346 | A line is the blank-board reply if and only if it is that sentence in any case between blanks. |
| `AtocVerdicts.StripPainted` | scripts/aen_atoc.py:251-328 | Stripping a text painted with colour sequences gives the text. |
| `AtocVerdicts.StatusExact` | scripts/aen_atoc.py:478-515 | The query reads "empty" if and only if it can be trusted and some line is the reply, and "ok" if and only if no line is and a heading, data rows and a separator below the last of them are there. |
| `AtocVerdicts.VerdictExact` | scripts/aen_atoc.py:478-568 | Each of the five verdicts, exactly: refused unverified, refused as foreign, replaced, blank board, clear. |
| `AtocTruncation.StripCsiCut` | scripts/aen_atoc.py:326-328 | Stripping a cut transcript gives a prefix of the stripped transcript, then at most an unfinished escape sequence. |
| `AtocTruncation.TruncationSafe` | scripts/aen_atoc.py:363-515 | When no separator-like line parts the data rows, any prefix of the transcript reads "ok" only if it lists every resident entry. |
| `AtocTruncation.TruncationExact` | scripts/aen_atoc.py:363-515 | For an uncoloured transcript with its header first, every cut is safe if and only if no separator-like line parts the rows. |
| `AtocTruncation.RowParses` | scripts/aen_atoc.py:349-385 | A printed row parses back to its name and cpu. |
| `AtocTruncation.TableRowsTogether` | scripts/aen_atoc.py:388-459 | A table whose rows stand together meets that condition. |
| `AtocTruncation.CutNotEmpty` | scripts/aen_atoc.py:337-346 | No cut of a transcript without a line that begins with the blank-board reply is taken for a blank board. |
| `AtocTruncation.CutEmptyExact` | scripts/aen_atoc.py:337-346 | For an uncoloured transcript that is exact: some cut is taken for a blank board if and only if some line begins with the reply. |
| `AtocTruncation.ForeignFacts` | scripts/aen_atoc.py:518-535 | The foreign list is empty exactly when every entry is baseline or allowed. |
| `AtocTruncation.BurnDelistsNothing` | scripts/aen_atoc.py:478-568 | End to end: whatever prefix the guard saw, a run it does not refuse and nobody overrides delists nothing that is not baseline or about to be rewritten. |
| `Renames.DeriveCoreRenames` | scripts/alp_template.py:593-617 | The loop gives every stale core the first free candidate of its class, passes through when none is stale, and fails when a class has none left. |
| `Renames.CoreRenamesSound` | scripts/alp_template.py:595-617 | Derived core renames cover exactly the stale ids, are injective, avoid ids in use, land in the topology in the same class, an m-class one on a core with a board, and never chain. |
| `RenameTargets.CoresExact` | scripts/alp_template.py:595-617 | Each derived rename gives the next stale id the first core in declaration order with its class letter that the file does not use, no earlier rename took and, for class `m`, has a board. |
| `RenameTargets.StaleExact` | scripts/alp_template.py:596-596 | The stale ids are the ids the topology lacks, in file order. |
| `Renames.SubstitutePins` | scripts/alp_template.py:1007-1023 | The pad loop applies one counted rename after another. |
| `PinMaps.RoleKept` | scripts/alp_template.py:671-744 | A resolved entry keeps its board alias: by its macro, or by its pad when exactly one route claims it. |
| `RenameTargets.TargetExact` | scripts/alp_template.py:671-744 | An entry resolves to a route if and only if it is the last target route with the alias of the source route that plays its part: the first with its macro, or without one the only one on its pad. |
| `RenameTargets.PadExact` | scripts/alp_template.py:771-788 | A pad entry wants exactly that route's pad. |
| `RenameTargets.DocExact` | scripts/alp_template.py:878-896 | An entry with a doc wants exactly that route's doc, dropped where it has none. |
| `PinMaps.DerivePinRenames` | scripts/alp_template.py:747-789 | The pad map exists exactly when every entry resolves and no pad is moved to two places, and then holds each moved pad once. |
| `PinMaps.DerivePinDocRenames` | scripts/alp_template.py:837-899 | The doc map exists exactly when every entry resolves and no doc is wanted as two things, kept and dropped ones included. |
| `PinMaps.PadMapFaithful` | scripts/alp_template.py:770-789 | The pad map gives every entry its own target if and only if no pad is kept by one entry and moved by another. |
| `PinMaps.KeptAndMovedHappens` | scripts/alp_template.py:770-789 | A concrete two-role pad passes the ambiguity check in that state. |
| `PinMaps.DocMapFaithful` | scripts/alp_template.py:876-899 | The doc map always gives every entry its own target. |
| `PinMaps.SequentialIsSimultaneous` | scripts/alp_template.py:1007-1023 | The counted rewrite succeeds if and only if no rename of an occurring pad lands on a later key, and then equals renaming all at once. |
| `PinMaps.PinsRetargeted` | scripts/alp_template.py:987-1023 | End to end: every pin entry then reads its own target pad. |
| `PinMacros.DerivePinMacroRenames` | scripts/alp_template.py:792-834 | The macro map exists exactly when every entry with a macro resolves to one and no macro is moved to two, and then holds each moved macro once. |
| `RenameTargets.MacroExact` | scripts/alp_template.py:812-834 | An entry with a macro wants exactly that route's macro. |
| `PinMacros.SubstitutePinMacros` | scripts/alp_template.py:1026-1040 | The macro loop applies one rename after another, each asked to occur. |
| `PinMacros.MacrosSimultaneous` | scripts/alp_template.py:1026-1040 | Without a chain the macro rewrite is simultaneous too, and refused exactly when a key does not occur. |
| `PinMacros.MacrosExact` | scripts/alp_template.py:1026-1040 | With distinct keys that all occur and all change, it is simultaneous renaming if and only if no rename lands on a later key. |
| `PinMacros.MacroMapExact` | scripts/alp_template.py:792-1040 | So it is for every derived macro map over its own entries' macros. |
| `PinMacros.MacroChainUndetected` | scripts/alp_template.py:1026-1040 | With a chain it silently is not, where the counted pad rewrite refuses. |
| `Splice.SpliceLast` | scripts/check_bootstrap_manifest.py:684-707 | Making the last edit first leaves the splice of the others unchanged. |
| `Splice.SpliceForward` | scripts/check_changelog_citations.py:1055-1062 | The forward cursor loop builds the simultaneous splice. |
| `Splice.ApplyVersionFix` | scripts/check_bootstrap_manifest.py:653-707 | The reversed in-place loop gives the same simultaneous splice of exactly the differing spans, and reports each once in file order with its original line. |
| `Splice.FixesMeanReplaceAll` | scripts/check_bootstrap_manifest.py:684-707 | Editing only the spans that differ is replacing every span. |
| `Splice.FixIdempotent` | scripts/check_bootstrap_manifest.py:684-707 | In the fixed text every site reads the target, so a second run makes no edit. |
| `ScriptLines.DocAtExact` | scripts/check_bootstrap_manifest.py:468-468 | The heredoc reader accepts exactly the opener's grammar and reads its dash and word. |
| `ScriptLines.OpenerFound` | scripts/check_bootstrap_manifest.py:468-468 | Text before it that holds no `<` does not hide an opener. |
| `ScriptOpeners.OpensExact` | scripts/check_bootstrap_manifest.py:468-520 | What a code line opens: the leftmost heredoc opener on it, if any; without one a here-string, if and only if `@` and a quote are the last thing on it but blanks. |
| `ScriptOpeners.HashExact` | scripts/check_bootstrap_manifest.py:523-523 | A line reads as a comment if and only if `#` is the first thing on it but blanks. |
| `ScriptLines.IterScannableLines` | scripts/check_bootstrap_manifest.py:476-523 | The loop over five state variables is never in both states and yields what the state machine says. |
| `ScriptLines.LinesYielded` | scripts/check_bootstrap_manifest.py:476-523 | Every line is yielded once, in order. |
| `ScriptLines.SkippedExact` | scripts/check_bootstrap_manifest.py:500-523 | A line is skipped if and only if it starts with `#` and the scanner stands in code before it, so no body and no closing line is. |
| `ScriptLines.PrintedScan` | scripts/check_bootstrap_manifest.py:476-523 | A script printed from code, heredoc and here-string segments is marked segment by segment. |
| `ScriptLines.CutPrints` | scripts/check_bootstrap_manifest.py:476-523 | Every script is the print of the segmentation its states induce, with at most one open block at the end. |
| `ScriptLines.CutRecovers` | scripts/check_bootstrap_manifest.py:476-523 | The states recover the segmentation a script was printed from. |
| `ScriptLines.TerminatorExact` | scripts/check_bootstrap_manifest.py:501-504 | The dash form is closed by the word behind tabs and nothing else, the plain form by the word alone. |
| `ScriptOpeners.ClosesExact` | scripts/check_bootstrap_manifest.py:501-509 | A here-string ends at its quote and `@` at the start of a line, whatever follows; a heredoc as above; code is closed by nothing. |
| `ScriptShell.ShellExact` | scripts/check_bootstrap_manifest.py:500-523 | For any reading of what a code line opens, the scanner's state is that reader's at every line if and only if the two agree on every line the reader takes for code. |
| `ScriptShell.ShellAgrees` | scripts/check_bootstrap_manifest.py:500-523 | And then exactly the `#` lines that are code to the reader are skipped, and no body line. |
| `ScriptShell.CommentExact` | scripts/check_bootstrap_manifest.py:513-523 | For the reader that differs only in that a comment opens nothing, the condition is that no comment holds an opener. |
| `ScriptShell.FalseOpener` | scripts/check_bootstrap_manifest.py:513-523 | A line in which the scanner alone sees an opener makes it skip a line of a later real body, on every script of one shape. |
| `ScriptShell.BodyLineSkipped` | scripts/check_bootstrap_manifest.py:513-523 | A concrete script of that shape, with a comment. |
| `ScriptShell.ShiftSkips` | scripts/check_bootstrap_manifest.py:513-523 | A concrete script of that shape without one: to any reader that takes an arithmetic shift for what it is, a line of a heredoc is skipped. |
| `Fold.FindUnreleased` | scripts/assemble_changelog.py:122-140 | The section found is the first unreleased header up to the next heading or the end; none is found exactly when no line is such a header. |
| `Fold.FoldSection` | scripts/assemble_changelog.py:143-177 | The fold replaces exactly that section, or fails without one. |
| `Fold.BuildSection` | scripts/assemble_changelog.py:151-175 | The popping, extending and appending loops build the new section. |
| `Fold.SectionUnique` | scripts/assemble_changelog.py:122-140 | A file has at most one such section. |
| `Fold.FoldLaw` | scripts/assemble_changelog.py:143-177 | Folding `f` and then `g` is folding `g` followed by `f` at once, when `f` opens with a non-blank line and holds no heading. |
| `Fold.FoldLawExact` | scripts/assemble_changelog.py:143-177 | For a first fragment with content that condition is also necessary. |
| `Fold.FoldNothingTwice` | scripts/assemble_changelog.py:143-177 | Folding nothing twice is folding nothing once. |
| `Fold.FoldConserves` | scripts/assemble_changelog.py:143-177 | Every non-blank line of the file and of the fragments survives, once and in order. |
| `Fold.FragmentsVerbatim` | scripts/assemble_changelog.py:159-177 | The fragments stand verbatim and in order below the header and one blank line, short only of blanks at the section's end. |
| `FoldText.SectionText` | scripts/assemble_changelog.py:151-175 | The new section line by line: header, an empty line, the fragments' lines, an empty line where both are there, the old content without the blank lines around it, an empty line. |
| `FoldText.InsertedExact` | scripts/assemble_changelog.py:159-167 | The lines put in are those of the fragments as one text with an empty line between two. |
| `FoldText.SectionLines` | scripts/assemble_changelog.py:122-140 | The section is found by the two line beginnings `## [Unreleased]` and `## [`. |
| `EthMac.CrockfordDecode` | scripts/alp_eth_mac.py:113-135 | Four characters decode, in any case, to their base-32 value; other lengths and letters outside the alphabet are refused. |
| `EthMac.CrockfordBijection` | scripts/alp_eth_mac.py:113-135 | Decoding is a bijection from upper-case four-character index strings onto 0 to 2^20 - 1. |
| `EthMac.ParseSerial` | scripts/alp_eth_mac.py:138-159 | An accepted serial has year, week and index in their ranges. |
| `EthSerials.ParseExact` | scripts/alp_eth_mac.py:138-159 | Every text is read, or refused for one reason, as its characters say: not of the shape, a look-alike letter in the index, a year outside 2024 to 2087, a week outside 1 to 53, in that order. |
| `EthMac.ParseInjective` | scripts/alp_eth_mac.py:138-159 | Two accepted serials say the same if and only if they differ in letter case only. |
| `EthMac.SerialPrints` | scripts/alp_eth_mac.py:138-159 | Every year, week and index in range has an accepted serial that says exactly them. |
| `EthMac.Payload40` | scripts/alp_eth_mac.py:162-172 | The shifts and bitwise ors place the fields side by side without touching; an interface past 3 is refused. |
| `EthMac.PayloadRoundTrip` | scripts/alp_eth_mac.py:162-172 | The payload is below 2^40, starts with the prefix nibble, and its fields read back. |
| `EthMac.PayloadOrder` | scripts/alp_eth_mac.py:162-172 | On one interface payloads are ordered as year, week and index. |
| `EthMac.DeriveMac` | scripts/alp_eth_mac.py:175-183 | The octet loop prints the address the specification gives, or the first refusal. |
| `EthSerials.AddressExact` | scripts/alp_eth_mac.py:162-183 | The address is, digit by digit, the upper-case hexadecimal print of 0xA2, 0xC, year, week, index, interface and two zero bits; refused exactly when the serial is or the interface is past 3. |
| `EthMac.MacRoundTrip` | scripts/alp_eth_mac.py:175-183 | The printed address decodes to year, week, index and interface and keeps the fixed first octet. |
| `EthMac.MacInjective` | scripts/alp_eth_mac.py:175-183 | Two addresses are equal if and only if the serials differ in letter case only and the interfaces are equal. |
| `PyText.SplitJoin` | scripts/assemble_changelog.py:163-163 | Splitting joined parts that hold no separator gives the parts back. |
| `PyText.StripExact` | scripts/check_changelog_citations.py:748-748 | Stripping leaves exactly what stands between the whitespace at both ends. |
| `PyText.SortedKeysLists` | scripts/abi_snapshot.py:1143-1143 | The sorted key list holds each key once and no other. |
| `PyText.SortedKeysSorted` | scripts/abi_snapshot.py:1143-1143 | And it is in code-point order. |

## Left out

- File reading and writing, git and subprocess calls, argument parsing, printing and exit codes; YAML and JSON parsing; the texts of messages, which are datatype constructors here.
- Unicode digits and word characters in `\d` and `\w`, and upper-casing outside ASCII: the model takes ASCII text there. `\s`, `strip` and `splitlines` are modelled on all characters.
- `CitationText.StripFencedBlocks`: the citation regexes are modelled as a search over the text between backticks, which is where every match lies; overlapping attempts the regex engine would make elsewhere are not represented.
- `AbiIncludes.UnconditionalIncludes`: lines come classified as openers, closers, other arms, defines, includes and the rest; the regexes that classify them, and a guard whose `#ifndef` and token stand on different lines, are not part of this model. `_resolve_include` and the graph built from the result are left out.
- `AbiDiff.RunDiff`: content hashes, include edges and the allowlist are inputs; hashing and the classifiers that produce records are not part of this model, nor is the tag backfill in `extract`.
- `FlashGate.CheckPreset`: the resolved aperture is an input; a `TypeError` from comparing two rows of equal size, base and name with different kinds of `write_authority` is not represented.
- `AtocTable.ParseResident`: the banner check is a boolean input, and the process that produced the transcript is left out.
- `Renames.SubstitutePins`: the pad sites of the board file, in order, stand for the two regular expressions that find them; the lines between sites are untouched by construction.
- `PinMaps.DerivePinRenames`: board presets are an input; reading them is left out.
- `AbiPairing.GreedyMaximumExact`: it counts the losses explained by equal content; that a value-changed move never costs one of them is part of the proof, but how many such moves another order would find is not stated.
- `Splice.ApplyVersionFix`: match spans are an input in file order; writing the file back is left out.
- `ScriptLines.IterScannableLines`: the script arrives as its list of lines.
- `ScriptShell.ShellExact`: what the shell takes for an opener is a parameter, since no shell is modelled; other states of a shell, such as a quoted string over several lines, are not represented.
- `HunkExact.HunksExact`: it is about the hunks of one file; for a list of files only the sufficient half is stated (`HunkLines.ReadsPrinted`), since a stray record of one file can coincide with a line of another.
- `Fold.FoldSection`: the loader's name check, its sort key and the final join with one trailing newline are left out.
- `EthMac.DeriveMac`: the interface is a natural number; the eMMC fallback prefix belongs to the boot loader and is left out.
- `_split_changelog`, `_rewrite_stale_sdk_root_comment`, the README and CMake prose adaptation, and the parity gates that compare two lists: each would add only members of one branch.
