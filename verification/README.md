# Verified models of the repository's audits and release checks

The repository ships an MCP server for GitLab, and beside it the commands that audit its sources, its commits, its
end-to-end coverage and its published packages. This project models the algorithms in those commands and proves what
each is relied on for. It verifies with `dafny verify dfyconfig.toml`.

* **Release packages** (`NupkgUnsign`, `NupkgSigning`, `SignableLayout`, `SignableHeaders`, `AttestedLayout`,
  `AttestedSigning` over `Bytes`). nuget.org adds a repository signature to a package after it was attested. The bytes
  of a package are modelled as the central directory and end record of the .ZIP File Format Specification (APPNOTE,
  sections 4.3.7, 4.3.12, 4.3.16, 4.4.4, 4.5.1 and 4.5.3) lay them out; the signer is written out, and unsigning is
  proved to undo it. What the layout check accepts, and which problem it reports, is said header by header
  (`AcceptedIffClean`, `ProblemsShown`). Three results are exact conditions rather than a plain yes. `rfind` takes the
  last end marker, so a signed archive whose end record spells the marker again is refused
  (`UnsignInvertsSignOrRefuses`). `check_signable_layout` promises the bytes a verifier recovers but never compares
  where its walk ends with the directory size the end record states, nor looks at the comment length, so it accepts
  archives `nuget_unsigned` refuses (`AcceptedReadsBack`). And it does not look at what lies between the directory and
  the end record, so accepted bytes can also come back from their signed form as other bytes, without an error
  (`SomeAcceptedBytesComeBackChanged`); `AttestedBytesRecovered` and `RecoveredFromEveryIff` say exactly which come
  back.
* **Retry allowances** (`RetryAllowance`). The sleep budget and the deadline that downloads and listing checks share,
  over a clock, the registries' answers and any sequence of calls.
* **Published IDs and hints** (`ConstantFold`, `ListWalk`, `ListHeld`, `ToolTokens`, `PinnedHints`, `HintSplice`,
  `HintNames`, `HintPasses`, `PackagePatterns`). The bounded constant folder against a big-step evaluator, the walk of
  any program, cyclic or not, as a repeat-free search, the hint rewriter down to the bytes of the file, and the
  comparison of package patterns. The fold answers for some calls that never return, because an argument that does not
  fold is left unbound (`FoldAnswersForEndlessCall`); where none is, it is totally correct (`FoldIsTheValue`), and
  `FoldsExactly` says which expressions fold. What a list holds is said shape by shape (`ListHeld`), and the walk is
  held to it. The walk marks a variable without the rule it is read by, and reads the returns of nested function
  literals as lists, so a Go program that type checks can lose a leaf (`SomeLeafIsDropped`; `NothingDroppedIff` says
  when none is lost). Wildcards that hold dots elsewhere than at their end can enclose each other
  (`MutualOnlyWhenStacked`, `EverythingCanReadAsNothing`), and `OutermostLoadsTheSame` says which lists lose packages to
  that.
* **Unread constants** (`DeadConsts`), **sign-offs** (`CommitLog`, `Signoff`). The event-driven stacks over a syntax
  tree and the union over loads; the log reader against the printer of its own format, and the judging of a commit.
* **End-to-end coverage** (`CallRecords`, `Cells`, `Sessions`, `CallFold`, `CellFill`, `Classification`,
  `ClassifiedLines`, `CoverageReport`, `SurfaceFigures`, `Baseline`, `UriTemplates`, `PortMap`). What each call is
  credited with, how cells fill and settle, every kind of cell from the fields of the lines that touch it
  (`ClassifiedLines`), that the published figures add up, that order and fine-grained lines change nothing, the superset
  comparison with a baseline, the matching of URIs, and where every old test went.

Code that runs in loops over state is a method or a class here, proved equal to a function or to a description without
an order; the theorems are about those. `Outcomes`, `Splitting` and `StringOrder` are shared.

## Model

| member | source | states |
|---|---|---|
| NupkgUnsign.ReadRecords | scripts/verify_published_packages.py:553-563 | the loop over the directory reads, on any bytes, exactly the records the recursive walk reads, ends where it ends, and fails where and how it fails |
| NupkgUnsign.NugetUnsigned | scripts/verify_published_packages.py:534-577 | the program on any blob: the function `Unsigned`, each refusal with its own error, whose inverse property is proved below |
| NupkgUnsign.WalkExtent | scripts/verify_published_packages.py:553-563 | every record read lies inside the stretch walked, so what is cut out is inside the directory |
| NupkgUnsign.WalkExactly | scripts/verify_published_packages.py:553-563 | on any bytes the directory is walked exactly when so many whole record headers stand in a row, each where the fields of the one before end, and then the walk ends behind the last; otherwise it fails where the row stops, for a wrong marker or a header cut off |
| NupkgUnsign.ReadEndIs | scripts/verify_published_packages.py:546-552 | on any bytes the end record is the last marker of the file with a whole record behind it; there is none exactly when no such marker stands, and bytes follow it exactly when the comment length says so |
| NupkgUnsign.AnswersExactly | scripts/verify_published_packages.py:564-577 | on any file whose directory can be walked: refused for its size exactly when the walk ends elsewhere, unchanged without an entry of the signature name, refused with several, and with one refused exactly when another entry lies later or the count is zero already |
| NupkgSigning.WalkReadsBack | scripts/verify_published_packages.py:553-563 | on a directory made of any records, the walk reads back those records, in order, and stops at the end of the last |
| NupkgSigning.ReadEndReadsBack | scripts/verify_published_packages.py:546-552 | `rfind` lands on the end record that was written, and reads back every field, unless its tail spells a second marker |
| NupkgSigning.SecondMarkerRefused | scripts/verify_published_packages.py:546-552 | a tail without a comment that spells the marker again is always refused |
| NupkgSigning.UnsignedWithoutSignature | scripts/verify_published_packages.py:566-568 | an archive with no signature entry comes back byte for byte |
| NupkgSigning.UnsignedWithSeveral | scripts/verify_published_packages.py:566-570 | an archive with two signature entries or more is refused |
| NupkgSigning.UnsignedWithOne | scripts/verify_published_packages.py:566-577 | with one signature exactly that entry is taken out when it is the last local entry, and the archive is refused otherwise |
| NupkgSigning.UnsignInvertsSign | scripts/verify_published_packages.py:534-577 | for every well-formed archive and every signature entry, unsigning the signed bytes gives the original bytes when the tail holds no second marker, whatever the entry holds |
| NupkgSigning.UnsignInvertsSignOrRefuses | scripts/verify_published_packages.py:534-577 | without a comment the answer is the original or a refusal and never a different archive; it is the original if and only if no second marker stands in the tail |
| NupkgSigning.EncodedReparses | scripts/verify_published_packages.py:553-577 | the bytes of an archive re-parse to the records it was made of |
| NupkgSigning.UnsignKeepsTheRest | scripts/verify_published_packages.py:571-577 | wherever the signature stands in the directory: the bytes before its local header are kept, the other records come back in order and unchanged, the end record describes the result, and a second application changes nothing |
| NupkgSigning.SomeSignedArchiveIsRefused | scripts/verify_published_packages.py:546-552 | a concrete archive that unsigning reads before it is signed, whose rewritten directory offset spells the marker once it is, and which is then refused |
| SignableLayout.ExtraFieldIds | scripts/validate_nuget.py:148-156 | the loop ends on every input and returns the ids the recursive reader returns |
| SignableLayout.IdsInvertFields | scripts/validate_nuget.py:148-156 | the ids of any joined (id, size, payload) fields are read back in order, whatever stump of under four bytes follows |
| SignableLayout.CheckSignableLayout | scripts/validate_nuget.py:159-219 | the loop appends exactly the problems of the declarative list, in order, behind the ones already there; which those are is `SignableHeaders.ProblemsShown` |
| SignableLayout.WalkCleanIffNoProblem | scripts/validate_nuget.py:184-219 | the walk over the directory reports nothing exactly when every record is clean |
| SignableLayout.AcceptedIffSignable | scripts/validate_nuget.py:159-219 | nothing is reported, and nothing read past the end, on exactly the layouts made of clean records under the last end record; what a clean header is, field by field, is `SignableHeaders.AcceptedIffClean` |
| SignableHeaders.AcceptedIffClean | scripts/validate_nuget.py:159-219 | nothing is reported, and nothing read past the end, exactly when the file ends in one end record over headers, read field by field, no flags field of which has bit 3 set, no field the zip64 sentinel, no extra field the zip64 id and no name the signature entry's, each with a whole local header |
| SignableHeaders.ProblemsShown | scripts/validate_nuget.py:159-219 | which problems a file is reported with, each exactly when the file shows it, and when the check runs off the end of the file instead |
| SignableHeaders.RecordShows | scripts/validate_nuget.py:184-219 | each record is reported with exactly the problems its own header and its local header show, kind by kind |
| SignableHeaders.NoEndShown | scripts/validate_nuget.py:165-170 | a file without a whole end record at its last marker is reported as having none, and nothing else |
| SignableHeaders.CarriedIffFound | scripts/validate_nuget.py:148-156 | an id is among the ids read from an extra field exactly when the bytes are joined fields that carry it, whatever follows |
| AttestedLayout.AcceptedReadsBack | scripts/validate_nuget.py:159-219 | an accepted archive is readable by `nuget_unsigned` if and only if its directory is the size its end record says and no comment is announced: the two things the check never looks at |
| AttestedLayout.SomeAcceptedArchiveIsUnreadable | scripts/validate_nuget.py:159-219 | a concrete file the check accepts and `nuget_unsigned` refuses |
| AttestedLayout.CleanWalk | scripts/verify_published_packages.py:553-566 | on an accepted directory the unsigning walk succeeds and finds no signature |
| AttestedLayout.CompleteIsArchive | scripts/validate_nuget.py:159-219 | accepted bytes that also agree with their own end record are the bytes of a well-formed archive |
| AttestedLayout.AcceptedCarriesNone | scripts/validate_nuget.py:197-199 | an accepted archive carries no signature entry |
| AttestedSigning.UnsignedSigned | scripts/verify_published_packages.py:534-577 | what unsigning answers for any accepted bytes signed with any entry: a refusal for a second marker, an announced comment or an entry behind the signature, or the bytes up to the last record with an end record that describes them |
| AttestedSigning.AttestedBytesRecovered | scripts/verify_published_packages.py:534-577 | signed with an entry, accepted bytes come back as they were if and only if they are recoverable (the directory is the size its end record says and ends where the end record starts, no comment is announced, no local offset lies behind the directory offset) and the new end record spells its marker once; no end record is found exactly when it spells it again |
| AttestedSigning.RecoveredFromEveryIff | scripts/verify_published_packages.py:534-577 | accepted bytes give themselves or no end record whatever entry they are signed with if and only if they are recoverable, or the disk numbers and counted-up counts alone spell the marker, so that every signed form is refused |
| AttestedSigning.SomeAcceptedBytesComeBackChanged | scripts/validate_nuget.py:159-219 | a concrete file with a byte between directory and end record, accepted, unsigned to itself, whose signed forms are unsigned without an error to 22 other bytes |
| AttestedSigning.SignersAgree | scripts/verify_published_packages.py:534-545 | on complete bytes the signer of bytes writes what the signer of archives encodes |
| ConstantFold.FoldCallInLoop | cmd/audit_action_ids/fold.go:52-81 | the parameter loop of the call fold computes what the recursive fold of a call computes, which is there exactly when `FoldsExactly` says so |
| ConstantFold.FoldsExactly | cmd/audit_action_ids/fold.go:105-141 | an expression folds exactly when it is a constant, a bound name, parentheses or a concatenation around such, or a call of a one-line helper whose body is such under the parameters whose arguments are, with at most three helpers one inside the other |
| ConstantFold.PrefixedVerbFolds | cmd/audit_action_ids/fold.go:125-131 | a helper that returns its parameter behind a prefix folds: called with "get" it is "project.get" |
| ConstantFold.FoldSound | cmd/audit_action_ids/fold.go:105-141 | under agreeing bindings a folded text is the value the expression evaluates to, through nested helpers |
| ConstantFold.FoldCallSound | cmd/audit_action_ids/fold.go:52-81 | the same for a call folded from outside, with its own argument bindings |
| ConstantFold.FoldKeptWithMoreRoom | cmd/audit_action_ids/fold.go:52-141 | an answer found at one depth is found unchanged with more remaining depth and with more bindings |
| ConstantFold.FoldIsTheValue | cmd/audit_action_ids/fold.go:72-80 | total correctness: when every argument of every helper followed folds, the expression returns, and returns the folded text |
| ConstantFold.ValueIffPassedOverReturn | cmd/audit_action_ids/fold.go:72-80 | with room for the calls followed, a folded expression has a value exactly when the arguments passed over have one |
| ConstantFold.FoldedValueIffPassedOverReturn | cmd/audit_action_ids/fold.go:105-141 | the answer is the value of the expression if and only if every argument that was passed over returns |
| ConstantFold.FoldAnswersForEndlessCall | cmd/audit_action_ids/fold.go:72-80 | a concrete call that never returns and still folds, because an argument that does not fold is passed over; nothing being passed over rules it out |
| ListWalk.WalkRecordsReachable | cmd/audit_action_ids/source.go:1021-1050 | the walk of any list of roots on any program, cyclic or not, ends; its sites are reachable leaves, each once, and what is reachable is read off the expressions by `ListHeld`; no reachable leaf is dropped if and only if no variable reached both as a list and as one ID holds an unrecorded one |
| ListHeld.OpensWhatItHolds | cmd/audit_action_ids/source.go:1021-1050 | the walk opens an expression to exactly what it holds by its shape, each part by its rule: elements as one ID, the first and a spread last argument of an append as lists and the others as one, conversions, copied carriers, values, ranges, callers' arguments spread or spelled, returns |
| ListHeld.RecordsTheLeaf | cmd/audit_action_ids/source.go:1021-1050 | an expression is recorded exactly when it is a leaf by its shape, with the ID it folds to |
| ListHeld.ReachedLeafIsHeld | cmd/audit_action_ids/source.go:1021-1050 | what the walk can reach and record are exactly the leaves the roots hold |
| ListHeld.WalkMeetsLeaves | cmd/audit_action_ids/source.go:1021-1050 | a finished walk records only leaves its roots hold, one site per expression; where no variable is held by both rules it records every one, and with the value each has |
| ListWalk.ReachedLeafIsRecorded | cmd/audit_action_ids/source.go:1069-1090 | a finished walk has a site for every leaf reachable through lists, appends, values, parameters and returns, unless a variable reached under both rules holds it |
| ListWalk.NothingDroppedIff | cmd/audit_action_ids/source.go:1069-1090 | nothing is dropped exactly when whatever is reached through a variable met under both rules is recorded; programs whose variables are each met under one rule drop nothing |
| ListWalk.SomeLeafIsDropped | cmd/audit_action_ids/source.go:1445-1470 | a concrete helper whose nested function literal returns a string variable: the variable is followed as a list first, and the ID it is given is reached and never recorded |
| ListWalk.WalkedReads | cmd/audit_action_ids/source.go:1021-1050 | on any program and from any state, the walk records every leaf of the items and of each name it follows, follows every name they name by some rule, and nothing else |
| ListWalk.WalkedBoth | cmd/audit_action_ids/source.go:1394-1403 | items in a row are walked one part after the other |
| ListWalk.RecordedInAnyOrder | cmd/audit_action_ids/source.go:1021-1050 | where no variable is met under both rules, the recorded leaves do not depend on the order the roots are walked in |
| ListWalk.ReadFollowing | cmd/audit_action_ids/source.go:1069-1090 | marking a name before reading its body still reads all the body reaches |
| ListWalk.ReadBoth | cmd/audit_action_ids/source.go:1394-1403 | two stretches of a walk read together what both read, with nothing twice |
| ListWalk.Collector.AddSite | cmd/audit_action_ids/source.go:2020-2030 | one site per expression, kept if it is there |
| ListWalk.Collector.RecordIDList | cmd/audit_action_ids/source.go:1021-1050 | an expression read as a list leaves the collector as the walk of it does, whose sites `ListHeld.WalkMeetsLeaves` gives |
| ListWalk.Collector.RecordListCall | cmd/audit_action_ids/source.go:1259-1335 | the same for a call that is neither an append nor a conversion, list copies included |
| ListWalk.Collector.RecordID | cmd/audit_action_ids/source.go:1480-1500 | the same for an expression read as one ID |
| ListWalk.Collector.FollowValues | cmd/audit_action_ids/source.go:1069-1090 | the same for what a variable can hold, by the rule it is met under first; false, and nothing changed, for one the index does not know |
| ListWalk.Collector.FollowParameter | cmd/audit_action_ids/source.go:1132-1172 | the same for every argument the callers of a carrier parameter pass |
| ListWalk.Collector.FollowReturns | cmd/audit_action_ids/source.go:1445-1470 | the same for what a declared function returns |
| ToolTokens.TokensExact | cmd/audit_action_ids/hints.go:26 | the matches found one after the other are exactly the tool names between word boundaries, ascending and apart |
| ToolTokens.MatchIsToken | cmd/audit_action_ids/hints.go:26 | the greedy run is the only one that can end at a boundary |
| ToolTokens.TokenIsSpelled | cmd/audit_action_ids/hints.go:26 | a tool name is a stretch that starts with `gitlab_`, goes on in at least one lower-case letter, digit or underscore, and has no word character on either side |
| ToolTokens.JoinedTokens | cmd/audit_action_ids/hints.go:26 | texts joined where no word crosses spell their tokens one after the other |
| PinnedHints.RewriteNames | cmd/audit_action_ids/fix_hints.go:219-236 | the incrementally built text is `renameTools` of the text, and the spans noted are the rewritten names' |
| PinnedHints.SpansDelimit | cmd/audit_action_ids/fix_hints.go:222-236 | each span delimits the rewritten name of its token, and the spans ascend without overlap |
| PinnedHints.MarkCovered | cmd/audit_action_ids/fix_hints.go:255-263 | exactly the spans an occurrence covers are marked, and marks are kept |
| PinnedHints.PinnedTokens | cmd/audit_action_ids/fix_hints.go:219-266 | the marks are the covered spans over every occurrence of every value with a space, or nil when there is none |
| PinnedHints.PinnedMeans | cmd/audit_action_ids/fix_hints.go:219-266 | a name is reported inside exactly when some folded value with a space occurs in the rewritten text over the whole of it, overlapping occurrences included |
| HintSplice.TestHintProse | cmd/audit_action_ids/fix_hints.go:192-207 | a test literal is admitted whole as production prose, or for the names inside a hint it pins, and not at all otherwise |
| HintSplice.TextTokenAt | cmd/audit_action_ids/fix_hints.go:278-285 | the next position that spells the tool, strictly past the last one |
| HintSplice.AlignedAscend | cmd/audit_action_ids/fix_hints.go:420-425 | positions given to the names of a literal strictly ascend and each spells its name |
| HintSplice.AlignedWhenSubsequence | cmd/audit_action_ids/fix_hints.go:278-285 | the greedy alignment places every source name whenever any placement in order does |
| HintSplice.EditsInLiteral | cmd/audit_action_ids/fix_hints.go:418-442 | the edits and unresolved names of one literal are those its decisions call for |
| HintSplice.DisjointSorted | cmd/audit_action_ids/fix_hints.go:448-457 | sorting by start keeps the edits disjoint and changes which there are in nothing |
| HintSplice.SpliceRewrites | cmd/audit_action_ids/fix_hints.go:458-465 | splicing sorted edits is the byte-by-byte rewriting: every byte outside an edit is kept in order |
| HintSplice.Splice | cmd/audit_action_ids/fix_hints.go:457-465 | the splice loop computes the declared rewriting of the file |
| HintSplice.AllEditsDisjoint | cmd/audit_action_ids/fix_hints.go:404-444 | the edits of all literals of a file are disjoint |
| HintSplice.FixHintsInFile | cmd/audit_action_ids/fix_hints.go:391-465 | each literal is admitted by the rule of its pass; the rewritten bytes are the declared rewriting by all admitted edits, with the unresolved names beside them; literal by literal `HintPasses` says what that is |
| HintPasses.PieceIsRenamed | cmd/audit_action_ids/fix_hints.go:145-155 | in either pass a literal that is not blank, holds a space and stands inside some hint has exactly the tools renamed that are not exempt and that the catalog resolves, down to the bytes of the file; reported are exactly the names neither exempt nor resolved |
| HintPasses.OtherProductionIsKept | cmd/audit_action_ids/fix_hints.go:145-155 | any other literal of a production file keeps every byte, and nothing is reported for it |
| HintPasses.PinningIsKeptOutside | cmd/audit_action_ids/fix_hints.go:192-207 | of any other test literal exactly the names an occurrence of a whole hint covers are up for renaming, and a literal no hint occurs in keeps every byte |
| HintPasses.BetweenLiteralsIsKept | cmd/audit_action_ids/fix_hints.go:457-465 | a stretch of the file no literal reaches into is copied |
| HintSplice.PinnedRewrites | cmd/audit_action_ids/fix_hints.go:199-207 | a test literal that is no piece of a hint is admitted exactly when it holds a whole hint, and then a name of it is rewritten exactly when an occurrence of a hint covers it, it is not exempt and the catalog resolves it |
| HintNames.LiteralRewritten | cmd/audit_action_ids/fix_hints.go:413-465 | the stretch of a literal is rewritten token by token as decided |
| HintNames.OnlyKeptNamesRemain | cmd/audit_action_ids/fix_hints.go:413-465 | when no action ID spells a tool name, an admitted literal spells afterwards exactly the names left: unknown, exempt or outside the hint |
| HintNames.OthersAreKept | cmd/audit_action_ids/fix_hints.go:413-417 | a literal that is not admitted keeps every byte |
| UriTemplates.TemplateMatchInLoop | cmd/audit_e2e_coverage/classify.go:1238-1262 | the segment loop matches, and counts literals, as the recursive matcher does |
| UriTemplates.MatchIffExpands | cmd/audit_e2e_coverage/classify.go:1238-1262 | a template matches a URI if and only if some values of its placeholders expand it to the URI |
| UriTemplates.MatchCountsLiterals | cmd/audit_e2e_coverage/classify.go:1238-1262 | a match counts the segments that are no placeholders |
| UriTemplates.MatchTemplate | cmd/audit_e2e_coverage/classify.go:1225-1234 | the answer is the first of the matches with the most literal segments, and none only when none matches |
| UriTemplates.SampleURI | cmd/audit_e2e_coverage/classify.go:1072-1092 | the loop that consumes the template writes the sample the recursive expansion gives |
| UriTemplates.SampledFromFront | cmd/audit_e2e_coverage/classify.go:1072-1092 | the sample of a template is its front, the value of its first variable, "1" for an id and "sample" otherwise, and the sample of what follows |
| UriTemplates.SampleMatches | cmd/audit_e2e_coverage/classify.go:1072-1092 | a template whose placeholders are whole segments, a reserved one only last, matches its own sample, with every literal counted |
| PackagePatterns.EnclosesIffLoadsAll | cmd/audit_action_ids/main.go:338-344 | between well-formed patterns enclosure is exactly: another pattern, and every package it loads is loaded |
| PackagePatterns.EnclosesAsymmetric | cmd/audit_action_ids/main.go:338-344 | no two well-formed patterns enclose each other |
| PackagePatterns.EnclosesTransitive | cmd/audit_action_ids/main.go:338-344 | enclosure of well-formed patterns passes on |
| PackagePatterns.MutualOnlyWhenStacked | cmd/audit_action_ids/main.go:338-344 | wildcards enclose each other exactly when one is the other with `/...` behind it |
| PackagePatterns.OutermostPatterns | cmd/audit_action_ids/main.go:312-330 | sorted, without repeats, exactly the normalized patterns nothing in the list encloses |
| PackagePatterns.NormalizeIs | cmd/audit_action_ids/main.go:346-351 | a leading `./` is dropped, and nothing else |
| PackagePatterns.OutermostIsAntichain | cmd/audit_action_ids/main.go:312-330 | no pattern kept encloses another kept one |
| PackagePatterns.OutermostLoadsTheSame | cmd/audit_action_ids/main.go:312-330 | for lists whose wildcards are `...` or end in `/...`: setting enclosed patterns aside loses no package if and only if no wildcard whose front no other wildcard's front is a prefix of stands beside itself with `/...` behind it |
| PackagePatterns.WellFormedNeverStacked | cmd/audit_action_ids/main.go:312-330 | lists whose patterns hold dots only at their end are among those that lose nothing |
| PackagePatterns.OnlyTopmostLoads | cmd/audit_action_ids/main.go:312-330 | below every such wildcard lies a package no other pattern of the list loads |
| PackagePatterns.OutermostIgnoresOrder | cmd/audit_action_ids/main.go:312-330 | the answer depends only on which patterns are named, not on order or repeats |
| PackagePatterns.NamesWhole | cmd/audit_action_ids/main.go:305-307 | true exactly when both lists have one outermost list, and then, when neither loses a package, they load the same ones; always true of lists that name the same patterns |
| PackagePatterns.StackedLeaveNothing | cmd/audit_action_ids/main.go:312-330 | two patterns stacked like that set each other aside |
| PackagePatterns.EverythingCanReadAsNothing | cmd/audit_action_ids/main.go:312-330 | the concrete list `.../...`, `...` loads every package and has an empty outermost list |
| DeadConsts.TreeRuns | cmd/audit_dead_consts/scan.go:123-172 | driven by the events of any tree the two stacks never run empty, end as they began, and declare what passing the function down the tree declares |
| DeadConsts.DeclaredAlongPaths | cmd/audit_dead_consts/scan.go:138-171 | a constant is declared exactly when some path leads to its declaration, under the name the path gives |
| DeadConsts.DeclaresItsNames | cmd/audit_dead_consts/scan.go:123-172 | a declaration adds exactly its unexported constants, the blank name aside, each under the function around it and with the number of names the declaration binds |
| DeadConsts.AlongIsInnermost | cmd/audit_dead_consts/scan.go:139-152 | that name is the innermost function declaration's, `func` when only literals enclose it, and empty otherwise |
| DeadConsts.Scanner.ObserveFile | cmd/audit_dead_consts/scan.go:123-172 | the table gains exactly what the tree declares |
| DeadConsts.Scanner.Observe | cmd/audit_dead_consts/scan.go:99-118 | the table, the uses and the package sets gain what the load declares, uses and names, test mains aside |
| DeadConsts.Scanner.Dead | cmd/audit_dead_consts/scan.go:188-198 | exactly the declared constants at unused positions, in source order |
| DeadConsts.InSourceOrderUnique | cmd/audit_dead_consts/report.go:98-102 | file, line and column order the findings one way only |
| DeadConsts.BeforeIs | cmd/audit_dead_consts/report.go:98-102 | file by file, then line by line, then from left to right |
| DeadConsts.WriteIsUnion | cmd/audit_dead_consts/scan.go:154-169 | agreeing constants written in any order leave exactly themselves |
| DeadConsts.AuditLoads | cmd/audit_dead_consts/scan.go:99-118 | over any loads that agree on each position: declared in some load and used in none, in source order |
| DeadConsts.SameFindings | cmd/audit_dead_consts/scan.go:188-198 | the same packages, however grouped, ordered or repeated over loads, give the same findings |
| CommitLog.ParseLog | cmd/audit_dco/git.go:108-135 | the loop reads a log as the recursive reader does, and fails on the same record with the same error |
| CommitLog.ReadExactly | cmd/audit_dco/git.go:108-135 | any text, cut at its record ends, is read exactly when nothing stands behind the last one and every record holds at least five NULs; otherwise the first short record is named, or the rest when none is short |
| CommitLog.EveryLogIsRecorded | cmd/audit_dco/git.go:108-115 | every text is records that hold no record end, each with one behind it, and a rest that holds none |
| CommitLog.MatchHashes | cmd/audit_dco/git.go:139-149 | no mismatch exactly when the two lists of hashes are equal; otherwise their lengths when those differ, and else the first position that differs |
| CommitLog.ReadLog | cmd/audit_dco/git.go:94-103 | success exactly when the log parses and names the listed hashes in order, and then with what was parsed; otherwise the parse error, or the first mismatch |
| CommitLog.CutGivesBody | cmd/audit_dco/git.go:110-115 | a record without a record end inside is cut off whole, though it may hold or end in either byte |
| CommitLog.ParseInvertsPrint | cmd/audit_dco/git.go:20-36 | reading inverts the printer for all commits whose fields hold no NUL and no whole record end |
| CommitLog.ParseCountsEnds | cmd/audit_dco/git.go:108-135 | however a text is read, it is read into as many commits as it holds record ends |
| CommitLog.PrintedEnds | cmd/audit_dco/git.go:20-36 | a printed log holds one record end per commit exactly when no field holds one |
| CommitLog.ReadLogExact | cmd/audit_dco/git.go:88-103 | held to the listed hashes, a printed log is read if and only if no field carries a whole record end, and then as the commits it was printed for |
| CommitLog.MarkCleanMerges | cmd/audit_dco/git.go:161-173 | in place: exactly the two-parent commits are asked about and marked by an empty remerge diff, up to the first failure |
| Signoff.ParseIdentityIffSpells | cmd/audit_dco/signoff.go:20-29 | a value is read as an identity exactly when the identity is valid and the value is it with white space around its parts |
| Signoff.ParseInvertsString | cmd/audit_dco/signoff.go:12-29 | reading inverts `String` on the valid identities and on no other |
| Signoff.ExemptingBot | cmd/audit_dco/bots.go:37-44 | the first declared bot whose login and identity both match, or none |
| Signoff.ClaimedBot | cmd/audit_dco/bots.go:48-55 | the first declared bot whose identity the author carries, or none |
| Signoff.Judge | cmd/audit_dco/signoff.go:93-113 | every outcome, and the bot kept with it, characterised by the commit: merge, exempt, signed off, signed by others, unsigned |
| Signoff.AuthorsSpellingSignsOff | cmd/audit_dco/signoff.go:100-104 | any spelling of the author's own identity among the trailers signs the commit off |
| Signoff.SignedByAuthorIff | cmd/audit_dco/signoff.go:100-104 | a commit is signed off by its author exactly when some trailer spells a valid identity whose name and email are the author's up to case |
| Signoff.ExemptsIff | cmd/audit_dco/bots.go:37-44 | a bot exempts a commit exactly when author name and email are its own and the pull request was opened under its login, all up to case |
| RetryAllowance.RetryBudget.Wait | scripts/verify_published_packages.py:254-261 | granted exactly when a full delay is left, and then one delay moves from remaining to granted |
| RetryAllowance.RetryDeadline.Wait | scripts/verify_published_packages.py:281-292 | granted exactly when it would end by the deadline, and then it ends by it |
| RetryAllowance.Fetch | scripts/verify_published_packages.py:295-314 | it ends; every request but the last failed, the last one is the outcome with its count, and it fails only once the allowance refuses |
| RetryAllowance.CheckNugetListing | scripts/verify_published_packages.py:664-690 | it ends; it goes on exactly from replies that lag, and reports what the last reply and the spent allowance say, with the number of answers read |
| RetryAllowance.SlotsHold | scripts/verify_published_packages.py:254-261 | so many waits fit an amount of seconds exactly when their sum does |
| RetryAllowance.BudgetBounds | scripts/verify_published_packages.py:241-261 | granted and remaining sleep add up to the seconds it was made with, and the waits granted fit them |
| RetryAllowance.BudgetLeft | scripts/verify_published_packages.py:241-261 | each wait granted takes exactly one of those that fit a budget |
| RetryAllowance.AllowsIffLeft | scripts/verify_published_packages.py:254-292 | an allowance grants a wait exactly when one fits in what is left |
| RetryAllowance.DeadlineBounds | scripts/verify_published_packages.py:264-292 | the waits a deadline granted fit its seconds, and the last one ended by it |
| RetryAllowance.RunCalls | scripts/verify_published_packages.py:295-314 | over any sequence of downloads and listing checks on shared allowances: each call in its turn draws on the allowance it was given and on no other, goes on while a wait is left there, and reports what its own requests came to; sleep is conserved, requests are calls plus waits and bounded, and no deadline wait ends late |
| PortMap.ResolvePortMap | cmd/audit_e2e_coverage/portmap.go:371-423 | whatever order the maps are walked in, the result satisfies the order-free description |
| PortMap.Map.NoteDrop | cmd/audit_e2e_coverage/portmap.go:426-437 | one drop is recorded or yields one finding |
| PortMap.ResolvedUnique | cmd/audit_e2e_coverage/portmap.go:371-423 | one resolution satisfies the description, so the map order cannot show |
| PortMap.Partitioned | cmd/audit_e2e_coverage/portmap.go:342-423 | every old test is in exactly one of replaced, dropped and unresolved, and which one follows from the lines and the drops |
| PortMap.ReplacedIff | cmd/audit_e2e_coverage/portmap.go:395-407 | an old test is replaced exactly when it is known and some line names it, by exactly the tests whose lines do |
| PortMap.FindingsIff | cmd/audit_e2e_coverage/portmap.go:371-437 | there is no finding exactly when every retirement, Replaces line and drop is in order |
| PortMap.FindingsAre | cmd/audit_e2e_coverage/portmap.go:371-437 | a finding is reported exactly when a retired name is declared or repeated, a line replaces an unknown test, or a drop names an unknown test, an unknown category or a replaced test, each with the text that says so |
| PortMap.CompleteIff | cmd/audit_e2e_coverage/portmap.go:342-344 | the gate passes exactly when nothing is wrong and every old test is named or dropped |
| Cells.AddConsistent | cmd/audit_e2e_coverage/classify.go:300-310 | a cell's best credit is the highest it counts, and every counted credit has a test behind it |
| Cells.AddCommutes | cmd/audit_e2e_coverage/classify.go:300-310 | two credits leave the same cell in either order |
| Sessions.ShapesAre | cmd/audit_e2e_coverage/classify.go:593-620 | the shapes are those of the classic sessions |
| Sessions.ToolsAre | cmd/audit_e2e_coverage/classify.go:608-611 | a shape serves the tools its classic sessions listed, together |
| Sessions.ObservedExactly | cmd/audit_e2e_coverage/classify.go:229-231 | a shape reads observed exactly when some session's span arrived and every session that made a traced call had one |
| Sessions.SurfacesAre | cmd/audit_e2e_coverage/classify.go:636-664 | the capability surfaces are those some classic session ran on, full or minimal; each serves, list by list, sorted and once, exactly what its sessions listed, and per shape the manifest entries they listed |
| Sessions.FineGrainedSessionsAside | cmd/audit_e2e_coverage/classify.go:594-598 | deleting fine-grained session lines changes nothing served |
| CallFold.ApplyCommutes | cmd/audit_e2e_coverage/classify.go:698-770 | the effects of two calls commute on the whole record |
| CallFold.OrderOfCalls | cmd/audit_e2e_coverage/classify.go:552-558 | the folded record is the same for every order of the call lines |
| CallFold.FineGrainedCallsAside | cmd/audit_e2e_coverage/classify.go:552-558 | and the same with the fine-grained lines deleted |
| CallFold.CellsCount | cmd/audit_e2e_coverage/classify.go:744-770 | an action has a cell exactly when a line names it, which counts each credit as often as a line earns it |
| CallFold.MoreCallsKeepCredits | cmd/audit_e2e_coverage/classify.go:744-770 | a line more takes no cell and no credit away |
| CellFill.EverySettled | cmd/audit_e2e_coverage/classify.go:894-909 | after classify every action, item, flow and mode cell has a state |
| CellFill.ActionStateIs | cmd/audit_e2e_coverage/classify.go:934-944 | the state of an action's cell from the call lines: its best credit's, or unservable, or absent |
| ClassifiedLines.EarnsItsCredit | cmd/audit_e2e_coverage/classify.go:131-183 | the credit of a line from its status, purpose, outcome, method and dispatched action alone |
| ClassifiedLines.LinesGathered | cmd/audit_e2e_coverage/classify.go:698-770 | a folded cell, of an action or of a capability item, counts each credit as often as a line for it earns it, with the tests of those lines behind it |
| ClassifiedLines.ActionCellIs | cmd/audit_e2e_coverage/classify.go:894-944 | which action cells there are, the tests behind each credit, and the state from the lines' credits: the best one's, or unservable where nothing was earned and the shape withholds the action, or absent |
| ClassifiedLines.ItemCellIs | cmd/audit_e2e_coverage/classify.go:698-731 | the same for resources, prompts, completions, subscriptions and manifest entries, by kind: the method, target, capability surface and shape of the lines that reach it, and the sessions that list it |
| ClassifiedLines.FacetCellIs | cmd/audit_e2e_coverage/classify.go:1141-1173 | which facets a protective shape is held to, and from which lines each is asserted, failed or absent: reads through, refused writes, previewed writes |
| ClassifiedLines.FlowCellIs | cmd/audit_e2e_coverage/classify.go:1100-1119 | every cell of an interactive action has a flow in its state, except that an assertion by no test that was asked anything is an error path |
| ClassifiedLines.ElicitedFromLines | cmd/audit_e2e_coverage/classify.go:718-731 | the tests asked something, and the items a change was delivered for, from the lines |
| ClassifiedLines.StaticStateIs | cmd/audit_e2e_coverage/classify.go:1183-1205 | the static pass turns an assertion the source does not check into unasserted, an absence a skipped test explains into skipped, and no other state into anything |
| ClassifiedLines.StaticCreditsAre | cmd/audit_e2e_coverage/classify.go:1183-1205 | it credits the first skipped test that explains an absence, once, and no other cell anything |
| ClassifiedLines.StaticFlowIs | cmd/audit_e2e_coverage/classify.go:1183-1205 | and the flows follow the cells again after it |
| CellFill.StaticKeepsCells | cmd/audit_e2e_coverage/classify.go:1183-1205 | the static pass moves no cell, keeps every one settled, and changes which are unlisted in nothing |
| CellFill.ClassifyIgnoresOrder | cmd/audit_e2e_coverage/classify.go:535-566 | the whole classification is the same for every order of the call lines |
| CellFill.ClassifyIgnoresFineGrained | cmd/audit_e2e_coverage/classify.go:535-566 | and the same with every fine-grained session and call line deleted |
| Classification.Classification.FoldSessionLines | cmd/audit_e2e_coverage/classify.go:593-624 | the loop over the session lines folds what the specification folds |
| Classification.Classification.FoldCallLine | cmd/audit_e2e_coverage/classify.go:698-731 | one call line has exactly its specified effect; which cell it credits with what is `ClassifiedLines.LinesGathered` |
| Classification.Classification.FillActionCells | cmd/audit_e2e_coverage/classify.go:894-909 | both loops together give every cell of the grid and every other cell its state |
| Classification.Classification.FillCapabilityItems | cmd/audit_e2e_coverage/classify.go:978-996 | served items are listed and settled, called ones settled and left unlisted |
| Classification.Classification.FillElicitationCells | cmd/audit_e2e_coverage/classify.go:1100-1119 | every interactive action's flow is derived, whatever order the cells come in |
| Classification.Classification.FillModeCells | cmd/audit_e2e_coverage/classify.go:1141-1173 | one cell per facet of each protective shape, from its evidence |
| Classification.Classification.ApplyStaticPass | cmd/audit_e2e_coverage/classify.go:1183-1205 | the static pass as specified, flows derived again |
| Classification.Classification.Run | cmd/audit_e2e_coverage/classify.go:535-566 | classify as it runs is the specified classification, whose cells `ClassifiedLines` gives from the lines |
| CoverageReport.Summarize | cmd/audit_e2e_coverage/report.go:407-450 | the calls tests made are counted; each histogram counts its cells by state and adds up to them, one per kind with a cell; the unlisted cells that are not absent are kept apart, kind by kind |
| CoverageReport.DefaultModeAddsUp | cmd/audit_e2e_coverage/report.go:423-431 | on a default-mode surface with a session there is one cell per catalog action |
| CoverageReport.CapabilitySurfaceRows | cmd/audit_e2e_coverage/report.go:295-307 | exactly one row per capability surface, in name order, with its figures, which sum to the listed items exactly when no served list repeats one |
| SurfaceFigures.RowCounts | cmd/audit_e2e_coverage/report.go:295-307 | each figure of a row counted in the session lines: the classic sessions and shapes on the surface, and the names they listed together, manifest entries aside |
| CoverageReport.ListedAddsUp | cmd/audit_e2e_coverage/report.go:432-448 | the listed histogram of a kind sums to the rows' figures exactly when no surface serves an item twice |
| CoverageReport.UnlistedExactly | cmd/audit_e2e_coverage/classify.go:837-850 | a cell is unlisted exactly when calls made it and no session of its capability surface listed its target |
| CoverageReport.StaticKeepsFigures | cmd/audit_e2e_coverage/report.go:423-448 | the static pass moves no figure of the histograms |
| CoverageReport.ActionRows | cmd/audit_e2e_coverage/report.go:328-360 | a row per action with its state on each surface that ran and the levels it reaches; the actions of each level in catalog order, each level contained in the next wider one |
| CoverageReport.StaticAssertsNothing | cmd/audit_e2e_coverage/classify.go:1184-1189 | after the static pass an action is asserted exactly where it was and is not unasserted by the source |
| Baseline.ReachedSetInLoops | cmd/audit_e2e_coverage/baseline.go:140-151 | the loops collect exactly the reaching credits of every cell |
| Baseline.CompareBaseline | cmd/audit_e2e_coverage/baseline.go:154-171 | nothing is lost exactly when every baseline key is satisfied; the losses are spelled out sorted, and gains counted |
| Baseline.NoLossReflexive | cmd/audit_e2e_coverage/baseline.go:185-197 | a run loses nothing against itself |
| Baseline.NoLossTransitive | cmd/audit_e2e_coverage/baseline.go:185-197 | losing nothing passes on, through cleanup, sweep and asserted |
| Baseline.MoreCallsLoseNothing | cmd/audit_e2e_coverage/baseline.go:154-171 | call lines added anywhere in a run never lose it anything |
| Baseline.StaticReachesTheSame | cmd/audit_e2e_coverage/classify.go:1183-1205 | the static pass never changes what was reached |
| Baseline.ReachedExactly | cmd/audit_e2e_coverage/baseline.go:140-151 | a key is reached exactly when a classic `tools/call` line on that surface and mode, neither raw nor a model's, names that action and has the status, purpose and outcome that credit takes |
| Baseline.LostExactly | cmd/audit_e2e_coverage/baseline.go:185-197 | a baseline key is lost exactly when no line earned its credit, nor sweep or asserted where it is cleanup, nor asserted where it is sweep |
| Baseline.SpelledCredits | cmd/audit_e2e_coverage/baseline.go:113-116 | how a loss is spelled: surface, mode, action and credit |
| Baseline.ReachedOnlyByPassing | cmd/audit_e2e_coverage/baseline.go:134-139 | and every such line is of a passing test, neither raw nor a model's |

## Left out
- Network, git, file system, zip decompression, hashing, JSON, command lines, exit codes and rendered reports: their results are parameters.
- Floating point: allowances are kept in exact reals, and sleeps last as long as asked for.
- AttestedSigning: the signer is defined where every record of the directory lies in the file; what it leaves between the last record and the end record is any bytes.
- Zip offsets that run past the end of the file: `nuget_unsigned` and `check_signable_layout` raise there, the model answers with a refusal of its own; decoding a name that is not valid UTF-8 is compared bytewise with the ASCII name of the signature entry, and letter case is folded for ASCII only.
- ConstantFold: the prose mode that joins pieces with spaces, formatted strings and variadic helpers; a constant that is not a string folds to nothing.
- ListWalk: one kind of ID list per walk, hints and usage prose not at all.
- ListWalk.Collector: the collector's sites carry their expression and whether it resolved, not positions or package names; index construction is an input.
- ToolTokens: regular expressions other than the one token shape; bytes outside ASCII are no word characters.
- HintSplice: parsing the Go file and unquoting its literals, which give the literals as an input; suggestions of the closest ID; the count of fixes. `go/scanner` drops carriage returns from a raw literal, so in a file with CRLF line ends the offsets behind one in such a literal are shifted and `Located`, the hypothesis on the literals, fails.
- PackagePatterns: a pattern with dots in its middle is read by its front or as a path, where the go command expands them; the platform's path separator is a slash already; patterns of more than one module and the splitting of patterns into served and suite ones.
- DeadConsts: positions keep the file as loaded where the report prints it relative to the root; generated test mains are flagged by the load; the table of declared exemptions.
- DeadConsts.AuditLoads: takes it that loads of one tree agree on the constant at each position, which the type checker's determinism gives.
- CommitLog: git itself; that git keeps NUL out of every field is the hypothesis `Printable`.
- Signoff: Unicode's simple case folding is a parameter, one representative character per orbit; the table of declared bots is a parameter.
- RetryAllowance: request headers, the log lines between attempts and which errors count as in transit; versions are compared already lower-cased.
- PortMap: reading test functions and Replaces lines out of Go files; `%q` is a parameter.
- Sessions: the counts of resources, templates and prompts a shape's row publishes, and the labels of idle and unobserved sessions.
- CallFold: the lists and counters published beside the cells (mismatches, unresolved and uncalled tools, diagnostics), and the fine-grained section of its own.
- CellFill: the texts of reasons; a cell says that it is unservable or skipped, not why. Catalog construction and licensing tiers.
- Classification: cells are values in the maps the methods reassign, where the program shares pointers and copies maps to keep a derived flow apart from its action.
- CoverageReport.Summarize: gives the unlisted cells as keys, without the row order; the lengths of the catalog and of the levels are read off `ActionRows`.
- CoverageReport: percentages, row layouts and session rows.
- Baseline: joining verdicts onto a recorded baseline before it is compared.
- UriTemplates: `subscriptions.Classify` is a parameter.
