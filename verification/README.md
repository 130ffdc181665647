# The gates' small algorithms, and what they decide

This project models, in Dafny 4.11, the algorithms on which the repository's Python gates rest: each
of them decides whether two arms armed in order, agree byte for byte or lost orders, and each has a
meaning that can be written down without its loop. Every module states that meaning first (a
relation, a set or a closed form over all inputs), then gives the algorithm in the source's own form
(a loop where the source loops) and proves that the two are the same. Where a property holds only
under a condition, the condition is one a caller can check beforehand and the theorem says *if and
only if*.

Besides, the outcome of each operation is stated once more in the words of its input alone (characters,
fields, rows), so that no definition which an algorithm and its meaning share is left to itself.

`dafny verify dfyconfig.toml` checks everything.

| module | source | main results |
|---|---|---|
| `CommentStrip` | `tools/_cstrip.py` | one unique tokenisation; stripping is idempotent in and across both modes; line numbers kept |
| `ArmOrder` | `tools/check_arm_order.py` | the greedy matcher is exact iff the template is unambiguous; a red names the exact line; when a re-record can lose an optional step |
| `OrderBurst` | `tools/check_cap_orders.py` | modular closed form of the wipe-on-full queue |
| `ByteRuns`, `RegionDiff` | `tools/abc_region_diff.py` | maximal runs, chunk reassembly in any order, meaning of PROVED and of which arms, when `inside` is complete |
| `SeedDiff` | `tools/check_d36_rematch_seed.py` | prefix-sum partition, the second run-length diff, when it raises, when its report is exact |
| `CamTrace` | `tools/check_cam_trace.py` | one-pass answers equal optima over all windows |
| `SeedConfig` | `tools/build_public_seed.py` | success condition, what the printed file reads back as, when nothing kept is lost, re-derivation |
| `CallGraph` | `tools/call_graph.py` | reachability is the closure; closure laws; union of the edge sources, and when the third is empty |
| `Reimpl` | `tools/_reimpl.py` | the domain-scoped view cannot see the excluded domain's progress |
| `RunDir` | `tools/_rundir.py` | time order over three generations of names; where `canon` alone is enough; when the two session patterns agree |
| `BigMap` | `tools/check_bigmap.py` | torus arithmetic of the overlay, and the click check |
| `LogScope` | `tools/check_codepage_adopt.py` | windows and scopes of a client sequence, when two clients never claim one line |

`Options`, `Sequences` and `Arithmetic` hold an option type and a few facts the others use by name.

Where the code and its own words differ, the code is followed:

* `inside` (tools/abc_region_diff.py:136) tests a whole differing run against one declared range, so
  a run that straddles two adjacent declared ranges is reported although each byte is declared:
  `RegionDiff.InsideExact` gives the exact condition.
* the two arms are read into a dictionary by label (tools/abc_region_diff.py:153), so `--label-b ship`
  beside the default first label compares the second arm with itself, which is PROVED as soon as it
  dumped anything: `RegionDiff.VerdictIsOfGivenArms` and `RegionDiff.SelfComparisonProved`.
* `derive` (tools/build_public_seed.py:517) calls itself fail-closed, but a kept row whose group is
  not listed vanishes without a refusal: `SeedConfig.UnlistedGroupDropsEntry` and
  `SeedConfig.NothingKeptIsLost`.
* `update_baseline` (tools/check_arm_order.py:790) refuses a run that did not log an optional step, so
  that none is dropped in silence, but a logged one is still lost when another step of the old file
  takes one of its texts: `ArmOrder.RefusalProtectsExactly` gives the exact condition.
* the report of `diff_runs` (tools/check_d36_rematch_seed.py:143) is keyed by region name, so it is
  right for every seed only if names are distinct: `SeedDiff.SeedDiffExact`. The `--diff` command
  gives it two files of any length: it then raises where a compared region is cut short, and is
  silent about a region that both files cut short alike: `SeedDiff.DiffCommand`.
* `canon` (tools/_rundir.py:41) puts SES1 and SES8 names in time order, but not a mix with pre-SES1
  names of one day: `RunDir.CanonOrderExact`, and `RunDir.SameDayMixMisordered` for real names.
* `SESSION_DIR_RE` (tools/_rundir.py:35), which the checkers copy, takes any letters and digits for the
  mode of an SES8 session, the parser only lower-case letters: `RunDir.SessionReadingsAgree`.
* `load_graph` (tools/call_graph.py:62) looks up `from` or `src` and `to` or `dst`, while the file it
  reads (tools/data/fallthrough_entries.json:25) spells its keys `from_addr` and `to_addr`: the third
  edge source is empty (`CallGraph.UnreadRecordsAddNothing`, `CallGraph.CommittedKeysAreUnread`).
* the windows of clients that ran one after another are said to partition the host log
  (tools/check_codepage_adopt.py:181), but the stamps are times of day and each window has a tail:
  `LogScope.ClientsApartExactly`, and `LogScope.MidnightClientClaims` for a run over midnight.
* the fall-through addresses of the call graph are stripped with `lstrip("0x")`, which loses address
  0: `CallGraph.AddressNamesItsVertex`.

## Model

| member | source | states |
|---|---|---|
| CommentStrip.TokenisationIsUnique | tools/_cstrip.py:52-87 | a text splits into literals, comments and plain characters in at most one way |
| CommentStrip.Lex | tools/_cstrip.py:52-87 | every text has such a split, unterminated literals and comments included |
| CommentStrip.FirstToken | tools/_cstrip.py:57-86 | which token a text starts with, as a relation and not as a scan |
| CommentStrip.Find | tools/_cstrip.py:75-79 | `text.find`: the first occurrence at or after the start, or -1 exactly if there is none |
| CommentStrip.ScanLiteral | tools/_cstrip.py:59-72 | the inner loop consumes exactly the literal that starts there, escapes and end of text included |
| CommentStrip.StripAt | tools/_cstrip.py:57-86 | one turn of the outer loop appends what the first token leaves and goes on after it |
| CommentStrip.StripComments | tools/_cstrip.py:52-87 | the pass outputs the kept tokens of the unique tokenisation, in both modes |
| CommentStrip.KeptTokenisation | tools/_cstrip.py:73-86 | deleting comments never forms a token: the kept tokens are the tokenisation of the output |
| CommentStrip.StrippedTextTokens | tools/_cstrip.py:52-87 | the output lexes to exactly the kept tokens and holds no comment |
| CommentStrip.StripIdempotent | tools/_cstrip.py:52-87 | stripping again, in the same or the other mode, changes nothing |
| CommentStrip.KeepLinesCount | tools/_cstrip.py:81-82 | with `keep_lines` the newline count is kept |
| CommentStrip.LinesPreserved | tools/_cstrip.py:42-43 | with `keep_lines` each character of each surviving token has as many newlines before it as in the input |
| CommentStrip.ModesAgree | tools/_cstrip.py:52-87 | both modes keep the same non-comment tokens, up to the newlines put in for comments |
| CommentStrip.LiteralKept | tools/_cstrip.py:59-72 | a literal in either quote is kept whole, escapes included, and the text after it is stripped on its own |
| CommentStrip.UnclosedLiteralKept | tools/_cstrip.py:59-72 | a literal that is never closed is kept to the end, a lone backslash there included |
| CommentStrip.LineCommentGoes | tools/_cstrip.py:73-76 | a line comment goes up to its newline, which stays |
| CommentStrip.BlockCommentGoes | tools/_cstrip.py:77-83 | a block comment goes; with `keep_lines` its newlines stay |
| CommentStrip.UnclosedCommentGoes | tools/_cstrip.py:77-83 | a block comment that is never closed takes the rest along |
| CommentStrip.PlainKept | tools/_cstrip.py:84-86 | any other character is kept and the rest is stripped on its own |
| ArmOrder.MatchChannel | tools/check_arm_order.py:450-484 | the two loops of the matcher compute the greedy match and its one failure |
| ArmOrder.ExplainsIffCanMatch | tools/check_arm_order.py:450-457 | an order-preserving assignment that spells every line and skips only optional steps exists iff the steps can be taken or skipped one by one |
| ArmOrder.Sound | tools/check_arm_order.py:459-484 | a green match is an explanation, for every template |
| ArmOrder.Complete | tools/check_arm_order.py:459-484 | under an unambiguous template every explained log is green |
| ArmOrder.AmbiguityShows | tools/check_arm_order.py:459-469 | an ambiguous template has a log that it explains and the matcher rejects |
| ArmOrder.MatcherExact | tools/check_arm_order.py:450-484 | matcher and meaning agree on all logs iff no optional step shares a text with the mandatory step it can be skipped to |
| ArmOrder.GoodUpToFailure | tools/check_arm_order.py:468-483 | before the reported place the log matched: with the remaining mandatory texts it would be explained |
| ArmOrder.LostAfterFailure | tools/check_arm_order.py:468-483 | the failure stands however the log goes on |
| ArmOrder.FailureIsExact | tools/check_arm_order.py:468-483 | the reported line is the first after which no completion of the log is explained |
| ArmOrder.OneRedAtMost | tools/check_arm_order.py:459-484 | there is at most one failure, and each of its three shapes means what it says for every template: what came before matched, and which step met which line |
| ArmOrder.CheckTexts | tools/check_arm_order.py:848-859 | the structural check is clean iff every entry has a text and no text occurs twice |
| ArmOrder.NoRepeatsMeansDisjoint | tools/check_arm_order.py:853-859 | no text twice means none twice in a step and none shared by two steps |
| ArmOrder.TextsOfStep | tools/check_arm_order.py:443-444 | the texts of a step are its primary text and its spellings, none twice iff the spellings differ from it and each other |
| ArmOrder.CheckedStepByStep | tools/check_arm_order.py:848-859 | clean, said of the fields: no empty primary text, no spelling twice or equal to it, no text in two steps |
| ArmOrder.CheckedTemplateIsExact | tools/check_arm_order.py:847-859 | a template that passes the check makes the matcher exact on every log |
| ArmOrder.IndexByText | tools/check_arm_order.py:734-737 | the dictionary holds, for each old text, the last step that carries it |
| ArmOrder.MergeAnnotations | tools/check_arm_order.py:733-755 | each line becomes the old step that spells it or a new mandatory one; the spelling-appending branch never fires |
| ArmOrder.MergedLine | tools/check_arm_order.py:733-755 | a line becomes the last old step that has it as text or spelling, with all fields, or a mandatory step of that text alone |
| ArmOrder.UpdateChannel | tools/check_arm_order.py:781-820 | refused iff an old optional step is not in the run, with exactly those steps; otherwise the merge |
| ArmOrder.LoggedByTexts | tools/check_arm_order.py:800-804 | a step was logged iff the run has its primary text or one of its spellings |
| ArmOrder.ReRecordedAccepts | tools/check_arm_order.py:733-755 | a re-recorded template accepts the run it came from, whatever it replaces |
| ArmOrder.StepSurvivesExactly | tools/check_arm_order.py:733-755 | an old step survives unchanged every run that logs it iff it is the last step to carry each of its texts |
| ArmOrder.RefusalProtectsExactly | tools/check_arm_order.py:790-820 | no run that is let through loses an optional step iff every old optional step keeps all its texts |
| ArmOrder.OptionalStepsSurvive | tools/check_arm_order.py:795-820 | in particular after a disjoint old template every optional step that was logged survives |
| ArmOrder.ReRecordedPassesCheck | tools/check_arm_order.py:733-755 | after a clean template the new one passes the whole structural check iff the run reported no step twice, in one or two spellings, and no new step is an empty line |
| ArmOrder.SharedTextLosesOptionalStep | tools/check_arm_order.py:734-737 | such a template: a run that is let through loses the optional step it logged |
| OrderBurst.Enqueue | tools/check_cap_orders.py:185-191 | one order through the queue: afterwards the queue is the last (records so far mod 301) records |
| OrderBurst.RunQueue | tools/check_cap_orders.py:183-191 | after the burst the queue holds exactly its last (n * records) mod 301 records, in order |
| OrderBurst.PrimariesOfTail | tools/check_cap_orders.py:192 | the primaries among the last m records are those of the last m div records orders |
| OrderBurst.PredictOff | tools/check_cap_orders.py:178-200 | which orders survive, for every n and record count, both shapes, division by zero included |
| OrderBurst.NothingLostIffItFits | tools/check_cap_orders.py:183-192 | all n orders survive iff n * records is at most 300 |
| ByteRuns.RunsCoverExactly | tools/abc_region_diff.py:95-108 | the maximal runs cover exactly the differing indices, each once |
| ByteRuns.RunsUnique | tools/check_d36_rematch_seed.py:152-161 | a byte diff has one answer, so both run-length loops compute the same runs |
| RegionDiff.ByteRanges | tools/abc_region_diff.py:95-108 | the loop returns exactly the maximal differing runs, sorted and not adjacent |
| RegionDiff.RunsExcusedSound | tools/abc_region_diff.py:136-137 | runs that pass `inside` leave no differing byte undeclared |
| RegionDiff.InsideExact | tools/abc_region_diff.py:136-137 | `inside` accepts all covered differences iff ranges that touch are merged into a declared one |
| RegionDiff.ReadRx | tools/abc_region_diff.py:76-92 | a key is present iff a row has it; its buffer is the rows written in order, zero-filled |
| RegionDiff.DumpRebuilt | tools/abc_region_diff.py:86-91 | chunks of one dump that cover it rebuild it in any order and with repeats |
| RegionDiff.CountStep | tools/abc_region_diff.py:56-61 | one step is counted once in each column that differs at it, and becomes its first if it is the first |
| RegionDiff.ColumnDiff | tools/abc_region_diff.py:52-73 | the rows are exactly the columns that ever differ, in order, with the number of steps and the least one |
| RegionDiff.JudgeDump | tools/abc_region_diff.py:192-215 | a dump passes iff lengths agree and every maximal run lies in one declared range |
| RegionDiff.Judge | tools/abc_region_diff.py:171-254 | the verdict is PROVED iff something was dumped, every dump passes and every differing column is named and dumped |
| RegionDiff.DeclaredIsByteDeclared | tools/abc_region_diff.py:126-133 | the collected ranges of a region hold a byte iff some A-vs-B excusal of that region does |
| RegionDiff.LoadArms | tools/abc_region_diff.py:153-160 | the dictionary holds the second log under its label, and under the first label the first log iff the labels differ |
| RegionDiff.JudgeArms | tools/abc_region_diff.py:153-254 | the outcome of the command for any labels, in terms of the arms the labels end up naming |
| RegionDiff.SelfComparisonProved | tools/abc_region_diff.py:153-254 | an arm compared with itself is PROVED iff it dumped anything, whatever is excused |
| RegionDiff.VerdictIsOfGivenArms | tools/abc_region_diff.py:153-160 | for two labels, the verdict is that of the given arms for all arms and excusals iff the labels differ |
| RegionDiff.ProvedMeansEveryByteDeclared | tools/abc_region_diff.py:192-254 | PROVED implies equal lengths and every differing byte declared; with merged ranges the converse holds per dump |
| RegionDiff.ProvedExactly | tools/abc_region_diff.py:171-254 | PROVED iff something was dumped by both, each dump is of one length with every differing stretch inside one range declared under an A-vs-B excusal of its region, and each differing column is of a region that such an excusal names and that was dumped |
| RegionDiff.RegionNames | tools/abc_region_diff.py:190 | a region is called by its entry in the list, or `col` and its number in decimal outside it |
| RegionDiff.ProvedColumnIsNamed | tools/abc_region_diff.py:221-227 | PROVED with a differing column means that an A-vs-B excusal carries the name of that very column, and a common dump is of it |
| RegionDiff.ProvedByteIsDeclared | tools/abc_region_diff.py:192-215 | PROVED with a differing byte means that an A-vs-B excusal of that very region declares it |
| SeedDiff.LoadRegions | tools/check_d36_rematch_seed.py:100-107 | each region starts at the sum of the sizes before it; the total is the sum of all |
| SeedDiff.EveryByteInOneRegion | tools/check_d36_rematch_seed.py:100-107 | every byte below the total is in exactly one region |
| SeedDiff.RegionRuns | tools/check_d36_rematch_seed.py:151-162 | the nested scan raises iff a slice is short, and otherwise returns exactly the maximal differing runs |
| SeedDiff.DiffRuns | tools/check_d36_rematch_seed.py:143-163 | for any two blobs: it raises iff a selected region that differs is cut short, and otherwise a name is reported iff a selected region of that name differs, with the runs of the last such region |
| SeedDiff.CheckedDiff | tools/check_d36_rematch_seed.py:227-239 | after `read_seed` it never raises; refused iff a seed is not as long as the table |
| SeedDiff.EachByteFlaggedOnce | tools/check_d36_rematch_seed.py:100-163 | from manifest to report, distinct names: a selected byte is flagged iff it differs, and in one region only |
| SeedDiff.DiffCommand | tools/check_d36_rematch_seed.py:730-734 | the unchecked `--diff` raises iff a region that differs is cut short, and reports nothing iff the parts of the files that the table covers are equal, in length too |
| SeedDiff.EmptyReportExactly | tools/check_d36_rematch_seed.py:143-163 | over all regions the report is empty iff those parts are equal |
| SeedDiff.WithinByByte | tools/check_d36_rematch_seed.py:147-149 | those parts are equal iff they agree byte by byte and end alike |
| SeedDiff.DistinctNamesExact | tools/check_d36_rematch_seed.py:143-163 | with distinct names the report is right about every byte of every selected region |
| SeedDiff.SeedDiffExact | tools/check_d36_rematch_seed.py:143-163 | for a given table the report is right on all seeds iff the names of its non-empty selected regions are distinct |
| CamTrace.RiseAndFall | tools/check_cam_trace.py:216-224 | `risen`: clear then set at an adjacent pair; `fallen`: such a rise and a strictly later fall |
| CamTrace.RiseAndFallByColumn | tools/check_cam_trace.py:216-224 | rise and fall in the edge column itself, the dash aside |
| CamTrace.PinnedBest | tools/check_cam_trace.py:225-252 | the result describes the first window that is lexicographically greatest in (length, movement) among all pinned windows |
| CamTrace.BestByNumbers | tools/check_cam_trace.py:250-252 | what best means, in lengths and movements |
| CamTrace.PinnedByColumn | tools/check_cam_trace.py:225-252 | which windows are pinned, by the columns, and what the run keeps of one |
| CamTrace.MovementAddsUp | tools/check_cam_trace.py:231-232 | camera movement adds up over neighbouring stretches |
| CamTrace.HeldBest | tools/check_cam_trace.py:283-303 | the first longest window that holds the letter, its movement, and `cleared` iff it ends before the trace does |
| CamTrace.HeldByColumn | tools/check_cam_trace.py:283-303 | which windows hold the letter, by the column, and what is kept of one |
| SeedConfig.ParseEntries | tools/build_public_seed.py:501-509 | the loop returns the rules of the text, right-stripped and in order |
| SeedConfig.LinesSplit | tools/build_public_seed.py:504 | a line ends at a break character, or at a carriage return with its newline |
| SeedConfig.LineBreaks | tools/build_public_seed.py:504 | which characters those are, by code point |
| SeedConfig.Blanks | tools/build_public_seed.py:505-508 | which characters are stripped, by code point |
| SeedConfig.RuleOfLine | tools/build_public_seed.py:505-508 | a line is a rule unless it is blank or its first other character is `#`; the rule loses the blanks at its end |
| SeedConfig.GluedRules | tools/build_public_seed.py:501-509 | gluing two texts with a newline concatenates their rules, whatever line breaks they hold |
| SeedConfig.RulesReadBack | tools/build_public_seed.py:501-509 | an entry read from a file reads back as itself alone |
| SeedConfig.BuildTable | tools/build_public_seed.py:525-530 | the table is built iff all row keys are distinct, and answers like the row list |
| SeedConfig.Partition | tools/build_public_seed.py:532-546 | every entry goes to kept or dropped by its row, unless one has none |
| SeedConfig.Derive | tools/build_public_seed.py:517-611 | succeeds iff rows are distinct, every entry has a row, every row is used and every row holds; refusals in the source's order |
| SeedConfig.DerivableExactly | tools/build_public_seed.py:525-596 | it succeeds iff no two rows have one key, every entry is proved by its row (kept with a reason and no private subject, or dropped under a withholding rule that owns something or with nothing tracked under it), and every row is used |
| SeedConfig.ProofsByRow | tools/build_public_seed.py:557-596 | what a kept and what a dropped entry has to prove, in the words of the row and the ledger |
| SeedConfig.SortedByRows | tools/build_public_seed.py:546-599 | each entry goes, in order, to kept or dropped and under its group by the row in charge of it |
| SeedConfig.KeyIsWords | tools/build_public_seed.py:512-514 | two entries have one key iff they have the same words |
| SeedConfig.OutputReadsBack | tools/build_public_seed.py:598-609 | the printed file reads back as the header's rules, then heading and members group by group |
| SeedConfig.OutputAsText | tools/build_public_seed.py:598-609 | the printed file as text: the header, then for each group with members a blank line, its own text or its title as a comment, and its members |
| SeedConfig.ReparsedIsBucketed | tools/build_public_seed.py:598-609 | it reads back as the stable bucket sort of the kept entries iff header and headings are comments |
| SeedConfig.BucketedMembers | tools/build_public_seed.py:599-607 | bucketing is stable within a group that is listed once |
| SeedConfig.NothingKeptIsLost | tools/build_public_seed.py:599-608 | with a comment-only header and headings, the printed file reads back as every kept entry, as often as kept, iff the group of each is listed exactly once |
| SeedConfig.BucketingKeepsAll | tools/build_public_seed.py:599-607 | the same of the bucketed entries for any header and headings |
| SeedConfig.UnlistedGroupDropsEntry | tools/build_public_seed.py:599-608 | a kept entry of an unlisted group disappears although the derivation succeeds |
| SeedConfig.ReDerivation | tools/build_public_seed.py:517-611 | with a comment-only header and headings, deriving the derived file again without the drop rows succeeds with the same text, under any later ledger, iff the group of each kept entry is listed exactly once |
| CallGraph.Expand | tools/call_graph.py:73-77 | expanding a vertex queues exactly its unseen successors |
| CallGraph.Reachable | tools/call_graph.py:69-78 | the walk ends and returns exactly the vertices a path from a root reaches |
| CallGraph.ReachesMonotone | tools/call_graph.py:69-78 | more roots and more edges reach no less |
| CallGraph.ReachesIdempotent | tools/call_graph.py:69-78 | walking on from the result reaches nothing new |
| CallGraph.LoadGraph | tools/call_graph.py:42-66 | the loaded edges are those of the three sources and no others, the choice between the two keys of an address included |
| CallGraph.RecordIsEdge | tools/call_graph.py:61-65 | a record whose first given addresses spell two vertices other than 0 is exactly the edge between them |
| CallGraph.FallThroughsEmptyExactly | tools/call_graph.py:61-65 | the third source adds no edge iff no record has, under the keys looked up, two addresses with something left after stripping |
| CallGraph.UnreadRecordsAddNothing | tools/call_graph.py:62-63 | records without the keys of one address load the graph as if there were no file |
| CallGraph.CommittedKeysAreUnread | tools/data/fallthrough_entries.json:24-31 | two addresses that are an edge under the keys looked up are unread under the committed keys |
| CallGraph.TailJumpsOnlyAdd | tools/call_graph.py:54-57 | the tail-jump graph reaches a superset of the plain one |
| CallGraph.AddressNamesItsVertex | tools/call_graph.py:61-65 | stripping and refilling an address, bare or prefixed, in either case and with or without its leading zeros, gives its vertex id back, except address 0, which is lost |
| Reimpl.LoadLedgerRows | tools/_reimpl.py:132-151 | the rows of every state-recording domain without the dead ones, in order |
| Reimpl.LedgerRowByRow | tools/_reimpl.py:140-150 | a dead row leaves nothing, a verified one is done, any other planned; address, domain and promotion are its own |
| Reimpl.LedgerDomainByDomain | tools/_reimpl.py:136-139 | a domain adds its rows iff it loads, records state and has a manifest |
| Reimpl.Scan | tools/_reimpl.py:277-290 | in whatever order the names come, the scan adds done exactly for ungraded sites that are not the domain's own |
| Reimpl.LoadReimpl | tools/_reimpl.py:253-291 | the answer for every address: another domain's last ledger value, else a macro site that is not the domain's own |
| Reimpl.AnswerByRows | tools/_reimpl.py:132-151 | for every repository and address: done or planned by the last row that counts; if none does, done iff an installed name resolves to it that the excluded domain does not claim |
| Reimpl.NonInterference | tools/_reimpl.py:256-269 | two repositories that differ only in the excluded domain's states, promotions and macro sites give the same view |
| Reimpl.ExclusionIsLocal | tools/_reimpl.py:271-291 | excluding a domain changes the view on its own addresses only, where only other ledgers still speak |
| Reimpl.MacroSiteMatters | tools/_reimpl.py:278-290 | one more macro site changes the view iff its address is ungraded, has no site and is not claimed |
| RunDir.AtMostOnePattern | tools/_rundir.py:49-70 | no name matches two of the five patterns |
| RunDir.Parse | tools/_rundir.py:73-95 | a name is parsed iff a pattern matches, into that pattern's fields |
| RunDir.ParsesAsWritten | tools/_rundir.py:49-95 | a name written from its parts parses into exactly those parts, for all five kinds |
| RunDir.ParsesExactly | tools/_rundir.py:49-95 | a name parses iff it is written by the rules, up to one final newline, and into its parts |
| RunDir.TimeAsWritten | tools/_rundir.py:87 | its time is the one its digits say |
| RunDir.NumberReads | tools/_rundir.py:92 | the slot is the number its digits denote |
| RunDir.KeyTellsTime | tools/_rundir.py:87 | the key is fourteen digits and denotes the time written in the stamp, in every generation |
| RunDir.KeysOrderTimes | tools/_rundir.py:108-112 | string order of keys is calendar order of times |
| RunDir.SortKeyOrdersByTime | tools/_rundir.py:108-112 | the sort key orders names of all generations by time, and equal times by canonical name |
| RunDir.UnparsedSortsFirst | tools/_rundir.py:109-112 | a name of no generation sorts before every run directory |
| RunDir.CanonIdempotent | tools/_rundir.py:41-46 | `canon` is idempotent |
| RunDir.CanonRewrites | tools/_rundir.py:41-46 | a dashed stamp at the start becomes the compact one; no other name changes |
| RunDir.CanonOrderExact | tools/_rundir.py:41-46 | canonical order is time order for distinct stamps iff separators agree, dates differ or the pre-SES1 name is the later |
| RunDir.SameDayMixMisordered | tools/_rundir.py:41-46 | every pre-SES1 process name and every later SES1 one of its day are real names that `canon` alone misorders and the sort key does not |
| RunDir.SessionReadingsAgree | tools/_rundir.py:35-37 | the copied pattern accepts every session the parser knows and no process; the two agree iff the name is not an SES8 session whose mode is not all lower-case |
| RunDir.SessionDirExactly | tools/_rundir.py:35-37 | which names the copied pattern takes, from their parts |
| RunDir.DisputedSortsFirst | tools/_rundir.py:108-112 | such a name has no parse and sorts before every run directory |
| RunDir.DisputedNames | tools/_rundir.py:35-56 | every SES8 name with such a mode is one of them |
| BigMap.CellsAndTilesBijective | tools/check_bigmap.py:157-160 | cells and tiles of the torus correspond one to one |
| BigMap.CentreInTheMiddle | tools/check_bigmap.py:159-160 | the tile at the centre is drawn in the middle cell |
| BigMap.NextCellNextTile | tools/check_bigmap.py:159-160 | neighbouring cells show neighbouring tiles of the torus |
| BigMap.CellPixels | tools/check_bigmap.py:157-158 | the pixels of each cell, clamped ones included |
| BigMap.TilePixels | tools/check_bigmap.py:157-160 | every tile owns exactly k consecutive pixels of the map |
| BigMap.CameraCentres | tools/check_bigmap.py:161-162 | the computed camera is the only one that has the clicked tile half a view away on the torus |
| BigMap.ClickLogProblems | tools/check_bigmap.py:142-172 | a problem is listed iff the log has it: too few clicks, a click before any geometry, a wrong tile or camera under the last geometry before it; a zero geometry raises |
| BigMap.RaisesAtZero | tools/check_bigmap.py:157-162 | it divides by zero exactly at a click under a geometry with no pixels to a tile or no tiles |
| BigMap.RightClick | tools/check_bigmap.py:157-172 | a click is right iff it logs, across and down, the tile drawn under the pixel and the one camera half a view from it |
| BigMap.LastShownCounts | tools/check_bigmap.py:149-152 | the geometry is that of the last `shown` line before the click |
| BigMap.CleanClickCentresTile | tools/check_bigmap.py:149-172 | in a clean log each click's camera centres the tile drawn under the pixel |
| LogScope.ClientWindow | tools/check_codepage_adopt.py:185-188 | the window runs from the least stamp to the greatest plus the tail, and is absent iff there is no stamp |
| LogScope.ScopeHostToClient | tools/check_codepage_adopt.py:178-196 | the scope is the order-preserving subsequence of lines whose governing stamp is in the window |
| LogScope.ScopeByLastStamp | tools/check_codepage_adopt.py:189-195 | a line is in scope iff the last stamped line up to it is in the window |
| LogScope.ScopesDisjointExactly | tools/check_codepage_adopt.py:178-184 | no host log has a line in two scopes iff the two windows are disjoint |
| LogScope.ClientsApartExactly | tools/check_codepage_adopt.py:178-184 | no host log has a line that two clients claim iff all stamps of one, plus the tail, come before all stamps of the other |
| LogScope.MidnightClientClaims | tools/check_codepage_adopt.py:170-188 | a client that runs over midnight claims the line of any client with a stamp between its least and greatest time of day |

## Left out

- The C++ spine, the lockstep engine, the save format and the cryptography.
- Git, subprocesses, the file system, networking, image reading, and the seed and push half of `build_public_seed.py`.
- Regular expressions: log lines are taken as already parsed into records, and run-directory names as their underscore-separated fields; `\d` and the ASCII classes of `_rundir.py` are the ASCII ones.
- `normalize` and the bulk-row folding of `check_arm_order.py`, with the normal-form clause of `check_baselines`: pattern lists; the log is modelled after both.
- The labels of `_explain` and all message texts.
- The frame span, line budget and transition list of `analyse`, and the marker windows `select_segment` and `window`.
- The int32 view of a range, the evidence file and the hash-kind refusal of `abc_region_diff.py`.
- The other clauses of `check_cap_orders.py`, `check_d36_rematch_seed.py`, `check_bigmap.py` and `check_codepage_adopt.py`: long lists of single comparisons.
- `classify` of the publish ledger: which rules own a tracked path is given to `SeedConfig.Derive`.
- `load_dead` and the roll-up of `_reimpl.py`.
- Update in place of Python lists, dictionaries and bytearrays: the tools never share one, so they are local sequences and maps that the loops reassign.
- LogScope.ScopeHostToClient: times are whole milliseconds, so rounding of the source's floating-point seconds at the last instant of a window is not modelled.
- RegionDiff.ReadRx: chunk offsets are natural numbers, as the harness writes them; Python's reading of a negative slice is not modelled.
- RunDir.Parse: works on a base name; `os.path.normpath` is not modelled.
- CallGraph.LoadGraph: `lower` is the ASCII one, and every value of a fall-through record is a string.
