# daemon-file-hosting: a verified model of its rule logic

The repository holds two unrelated programs, and this project models the
deterministic rules inside each of them.

- **A heuristic C/C++ static analyser** (`test.py`, class
  `AdvancedMemoryAnalyzer` and its helpers). The model covers:
  - the pattern engine's weight adjustment and filter;
  - the lexical block partitioner and its control-flow line test;
  - the allocate/free/use state machine and the leak rule built on it;
  - the six analysis stages with their per-stage fault isolation;
  - the field-wise metrics merge;
  - the content-hash result cache;
  - offset-to-line conversion, the size and CWE tables, the report counts
    and the recommendation rules.

  Every regular expression is an abstract matcher that the caller passes
  in (`Analyzer.Matchers`, `DataFlow.LineMatchers`).
- **A TLS file-exchange daemon and its tools** (C). The model covers:
  - the server's name splitting (basename, extension, stem);
  - the UPLOAD filename and recipient checks;
  - the DOWNLOAD access, offset and range rule;
  - the next-key rule of the "proc" map;
  - the LIST reply buffer;
  - the test suite's filename validator and MIME mock;
  - the directory daemon's MIME table and inotify record walk;
  - the source obfuscator `obfus.c`.

Module layout:

| module | file | what it holds |
|---|---|---|
| Wrappers, Text | text.dfy | Option; string scans (index of, last index of, starts with, basename, decimal form, ASCII lower-casing) and bytes |
| AnalyzerTypes | analyzer_types.dfy | Severity, Category, Issue, FileMetrics and its merge |
| PatternEngine | pattern_engine.dfy | the rule table, the candidates and the weight filter |
| ControlFlow | control_flow.dfy | strip, the control-flow line test, the block partitioner (a method with its loop) |
| DataFlow | data_flow.dfy | variable states, the update loop and the leak rule |
| Analyzer | analyzer.dfy | the stages, their isolation, the cache class |
| Report | report.dfy | the counts and the recommendations |
| Server, ProcKey, ListReply | server.dfy, proc_key.dfy, list_reply.dfy | the server's rules; the list buffer is a class over an `array<char>` |
| PathValidation, TestUtils | path_validation.dfy, test_utils.dfy | the test suite's validator and mocks, with their test assertions as lemmas |
| Daemon | daemon.dfy | `get_mime_type`, `handle_file_created`, the inotify walk |
| ObfusText | obfus_text.dfy | each obfuscator pass as a function on text, with its properties |
| Obfuscator | obfuscator.dfy | the passes as the C code runs them: loops over a read position, and a class `Source` for the `content` buffer they overwrite |

Each imperative piece of the source is a method whose loop is proved to
produce the value of a specification function. The properties promised by
the source are lemmas about those functions:
- the partition round-trips to the numbered stripped lines;
- a variable is reported as leaked iff no free is seen after its last allocation;
- stem ++ extension gives back the basename;
- the extreme-level string encoding decodes back to the bytes;
- the obfuscator's pass schedule is fixed by its configuration.

Where the system's description and its code differ, the model follows the code:
- **LIST.** `handle_list_request` builds a `$or` filter over the owner and
  the recipient into `query`, but runs the find with the empty `or_query`.
  Every stored document is therefore listed, and `ListReply.ListResponse`
  takes every document the cursor yields.
- **Anti-debug flag.** `anti_debug_functions` runs on every run. It never
  looks at `-d`, `enable_anti_debug` is never read, and the guard
  `level >= OBFUSCATION_NORMAL` always holds (obfus.c:819).
- **Opaque predicates.** `opaque_predicates` has no flag check, so it runs
  whenever the level is at least medium.
- **Semantic stage.** `analyze_symbols` compares `match.groups()`, a tuple,
  with an int. This raises TypeError as soon as a declaration matches, so
  the semantic stage is modelled as raising in that case. Its failure is
  isolated like that of any other stage.

## Model

| member | source | states |
|---|---|---|
| Text.IndexOf | tests/test_path_validation.c:8 | `strstr`: a result is an occurrence of the pattern with no earlier occurrence; no result means the pattern occurs nowhere |
| Text.LastIndexOf | tests/mocks/test_utils.c:11 | `strrchr`: a result holds the character and no later index does; no result means the character is absent |
| Text.FirstIndexOf | obfus.c:737 | `strchr`: a result holds the character and no earlier index does; no result means the character is absent |
| Text.ContainsIff | tests/test_path_validation.c:8 | `strstr(s, p) != NULL` exactly when the pattern occurs at some index |
| Text.NoDoubleDot | tests/test_path_validation.c:8 | a text with no two adjacent dots does not contain ".." |
| Text.LastIndexOfAt | tests/mocks/test_utils.c:18 | an index holding the character with no later repeat is what `strrchr` finds |
| Text.Basename | tests/mocks/test_utils.c:9-14 | the text after the last '/', or the whole path: a suffix of the path, free of '/', preceded by '/' unless it is the whole path |
| Text.CountChar | test.py:892 | `str.count` of one character: at most the length, and zero exactly when the character is absent |
| Text.CountCharAppend | test.py:892 | counting distributes over concatenation |
| Text.Split | test.py:256 | `str.split` on one character: one more piece than separators, and no piece holds the separator |
| Text.JoinSplit | test.py:256 | joining the pieces of a split with the separator gives the text back |
| Text.Decimal | src/server/server.c:213 | `PRId64` formatting of a natural number: digits only, at least one, no leading zero |
| Text.DigitsValueDecimal | src/server/server.c:187 | reading the decimal form back (`strtol`) gives the number |
| Text.LowerAscii | tests/mocks/test_utils.c:34 | `tolower` in the C locale on every character, length kept |
| Text.UpperAscii | test.py:523 | `str.upper` on ASCII text, character by character, length kept |
| AnalyzerTypes.FileMetrics.With | test.py:964 | `setattr` changes the named attribute to the value and no other |
| AnalyzerTypes.AttrsComplete | test.py:961-962 | the attribute list of the merge names every field of FileMetrics |
| AnalyzerTypes.ZeroMetricsAllZero | test.py:124-133 | `FileMetrics()` has every field zero |
| AnalyzerTypes.MetricsExt | test.py:124-133 | two metrics agreeing on every attribute are equal |
| AnalyzerTypes.MergeMetrics | test.py:959-964 | the loop leaves every attribute at the source's value when that is positive and at the target's otherwise |
| AnalyzerTypes.Merge | test.py:959-964 | the merge as a value, with the same per-attribute rule |
| AnalyzerTypes.MergeUnique | test.py:959-964 | the per-attribute rule determines the merged metrics uniquely |
| AnalyzerTypes.MergeNeverCombines | test.py:963-964 | each merged attribute is the target's or the source's, and it changes only for a positive source value |
| AnalyzerTypes.MergeZeroIdentity | test.py:963 | merging an all-zero FileMetrics is the identity |
| AnalyzerTypes.MergeIdempotent | test.py:963-964 | merging the same source twice equals merging it once |
| AnalyzerTypes.MergeLastWriterWins | test.py:488-492 | of two stages merged in order, the later positive value wins, then the earlier, then the target's |
| PatternEngine.Candidates | test.py:209-224 | every candidate comes from a rule of the table, with that rule's category and base weight |
| PatternEngine.Adjusted | test.py:233-240 | the weight is multiplied by 0.5 for a 'free' match in code with '~' and by 1.2 for high complexity, nothing else changes, and nothing clamps it |
| PatternEngine.Filtered | test.py:231-245 | no more candidates come out than went in, and each has adjusted weight above 0.6 |
| PatternEngine.ApplyMlHeuristics | test.py:228-245 | the loop returns the adjusted candidates above 0.6 in input order |
| PatternEngine.FilteredMembership | test.py:233-243 | a candidate is in the output exactly when it is the adjustment of an input whose adjusted weight exceeds 0.6 |
| PatternEngine.FilteredAppend | test.py:233-243 | filtering works candidate by candidate, so it distributes over concatenation and keeps the order |
| PatternEngine.WeightCanExceedOne | test.py:239-242 | a 0.9 rule in a high-complexity file comes out with weight 1.08 |
| PatternEngine.TableSurvivesIffNotHalved | test.py:142-202 | with the shipped weights a candidate survives exactly when its weight was not halved |
| PatternEngine.AnalyzeWithContext | test.py:209-226 | the candidates of every rule in table order, then filtered |
| PathValidation.IsSafeFilename | tests/test_path_validation.c:7-12 | an accepted name is present, is its own basename and has a length strictly between 0 and 256 |
| PathValidation.SafeIffServerAccepts | tests/test_path_validation.c:8-11 | accepted exactly when the server's '/'-and-".." check passes and the length is within bounds |
| PathValidation.SafeByCharacters | tests/test_path_validation.c:8-11 | a name without '/', without adjacent dots and of fitting length is accepted |
| PathValidation.ReportPdfSafe | tests/test_path_validation.c:15 | "report.pdf" is accepted |
| PathValidation.NumberedTxtSafe | tests/test_path_validation.c:16 | "file_123.txt" is accepted |
| PathValidation.SafeFilenameInvalidTests | tests/test_path_validation.c:19-25 | the traversal names, the empty name and NULL are rejected |
| PathValidation.LongFilenameRejected | tests/test_path_validation.c:27-31 | 261 copies of 'A' are rejected |
| PathValidation.AdjacentDotsRejected | tests/test_path_validation.c:8 | the benign "a..b" is rejected as well |
| ControlFlow.StripLeft | test.py:262 | `lstrip`: a suffix of the line that does not start with whitespace |
| ControlFlow.StripRight | test.py:262 | `rstrip`: a prefix of the line that does not end with whitespace |
| ControlFlow.Strip | test.py:262 | `strip`: neither end of the result is whitespace |
| ControlFlow.ElseHasNoWordBoundary | test.py:286 | `^else` also matches an assignment to `elsewhere` |
| ControlFlow.IfWithoutSpace | test.py:286 | `^if\s*\(` matches "if(x)" with no space |
| ControlFlow.BareReturnIsNotControlFlow | test.py:287 | `^return\s+` does not match a bare "return;" |
| ControlFlow.Numbered | test.py:261-270 | one numbered entry per line |
| ControlFlow.NumberedLinesShape | test.py:256-270 | there are count('\n') + 1 lines and line i is numbered i + 1 |
| ControlFlow.StepInv | test.py:265-276 | one line of the walk keeps the partition invariant: concatenation, non-empty blocks, openers first, "}" last |
| ControlFlow.ScanUpToInv | test.py:261-276 | the invariant holds after every prefix of the lines |
| ControlFlow.PartitionIsPartition | test.py:261-279 | the blocks concatenate to the lines, none is empty, a control-flow line only opens a block, "}" only closes one, and every split has one of those two reasons |
| ControlFlow.OrderedSnoc | test.py:266-268 | storing a block under the next id keeps the ids dense and appends the block in id order |
| ControlFlow.BuildControlFlowGraph | test.py:254-281 | the dictionary's ids are 0..k-1 and its blocks in id order partition the stripped numbered lines |
| ControlFlow.PartitionLines | test.py:258-281 | the loop's dictionary in id order is the walk's partition, and it satisfies the partition rules |
| ControlFlow.Close | test.py:266-276 | closing a non-empty block keeps the closed blocks well formed |
| ControlFlow.PartitionLineCount | test.py:256-279 | the block lengths of a partition of the code add up to count('\n') + 1 |
| DataFlow.Insert | test.py:308-313 | assigning a key stores the record and keeps every key listed once in insertion order |
| DataFlow.UpdateVariableStates | test.py:302-328 | the three match loops turn the dictionary into the state after allocations, then frees, then uses, of the instruction |
| DataFlow.AnalyzeDataFlow | test.py:292-300 | visiting the blocks in id order and their instructions in order yields the tracker state of the concatenated lines, with a valid key order |
| DataFlow.AllocAllValid | test.py:305-313 | allocation records keep each key listed once |
| DataFlow.FreeAllKeys | test.py:316-321 | the free loop adds no key and does not reorder keys |
| DataFlow.UseAllKeys | test.py:324-328 | the use loop adds no key and does not reorder keys |
| DataFlow.FlowValid | test.py:292-328 | after any run of lines the key order lists each tracked variable exactly once |
| DataFlow.AllocAllEffect | test.py:305-313 | a variable is tracked after the loop iff it was before or is matched; a matched one gets a fresh record; others are untouched |
| DataFlow.FreeAllEffect | test.py:316-321 | the free loop tracks no new variable and sets freed exactly for matched tracked ones, keeping allocated and allocation_line |
| DataFlow.UseAllEffect | test.py:324-328 | the use loop changes neither which variables are tracked nor their allocated, freed or allocation_line |
| DataFlow.LastAlloc | test.py:305-313 | the index found allocates the variable and no later line does; None means no line allocates it |
| DataFlow.FreedFromSnoc | test.py:316-321 | a free from index k on, in lines plus one more, is one in the earlier lines or in the last line |
| DataFlow.FlowTracks | test.py:292-328 | a variable is tracked iff some line allocates it; its record is then allocated, carries the last allocation's line, and is freed iff it is freed on or after that line |
| DataFlow.LeakNames | test.py:544-545 | every name reported is a tracked key whose record is allocated and not freed |
| DataFlow.LeakIssue | test.py:546-558 | the issue is a DATAFLOW_MEMORY_LEAK at the allocation line, column 0, HIGH severity, memory-safety category, confidence 0.8, with no CWE ids |
| DataFlow.IssuesFor | test.py:544-559 | one issue per name |
| DataFlow.IssuesForAt | test.py:544-559 | the i-th issue is the leak issue of the i-th name |
| DataFlow.LeakFindings | test.py:544-559 | the loop's issues are the leak issues of the final states, one per leaking variable in key order |
| DataFlow.ControlFlowAnalysis | test.py:536-561 | the stage reports the leak issues of the tracker run over the file's numbered lines and returns all-zero metrics |
| DataFlow.LeakNamesExact | test.py:544-545 | a variable is reported iff it is a tracked key with a leaking record, and no variable is reported twice |
| DataFlow.LeakReportedIff | test.py:292-559 | end to end: a variable is reported iff some line allocates it and no free of it comes on or after its last allocation |
| Analyzer.LineNumber | test.py:891-893 | the line number lies between 1 and the file's newline count plus one |
| Analyzer.LineNumberMonotone | test.py:891-893 | a later position never lies on an earlier line |
| Analyzer.LineNumberStep | test.py:891-893 | stepping over a newline moves to the next line, over any other character stays on it |
| Analyzer.EstimateSize | test.py:362-368 | the size is 1, 2, 4 or 8, and other than 4 only for char, short, double, long or void* |
| Analyzer.WordTypeSize | test.py:362-368 | for a type name without '*' the size is 8 exactly for double and long |
| Analyzer.CweMappings | test.py:932-941 | at most two CWE ids, and a non-empty list exactly for the five mapped issue types |
| Analyzer.RuleKindCwe | test.py:932-941 | every pattern category has a CWE list except concurrency_issues |
| Analyzer.BuildFileContext | test.py:880-889 | line_count is the newline count plus one; the complexity factor is 1.2 iff the file has more than ten branch openings |
| Analyzer.PatternResultsAdjusted | test.py:209-245 | a candidate survives the pattern stage iff it is a table match whose weight, halved for a 'free' match in code with '~' and multiplied by 1.2 for more than ten branch openings, exceeds 0.6 |
| Analyzer.PatternIssues | test.py:517-532 | one issue per candidate |
| Analyzer.PatternIssuesAt | test.py:517-532 | the i-th issue is built from the i-th candidate |
| Analyzer.PatternBasedAnalysis | test.py:510-534 | the stage reports the issues of the pattern engine's surviving candidates in order, with all-zero metrics |
| Analyzer.ReportCandidates | test.py:517-532 | the loop yields one issue per result, in order |
| Analyzer.PatternIssueShape | test.py:517-532 | every pattern issue is a memory-safety issue on an existing line, with confidence above 0.6, HIGH iff confidence above 0.8 and otherwise MEDIUM, and a snippet of at most 200 characters |
| Analyzer.ComplexityIssues | test.py:570-585 | at most one issue per reported function |
| Analyzer.ComplexityIssuesIff | test.py:570-585 | an issue is reported iff it is the HIGH_COMPLEXITY issue of a function of complexity above 10 |
| Analyzer.SemanticAnalysis | test.py:563-588 | a file with a declaration makes the stage raise (the tuple-to-int comparison); otherwise it reports the complex functions with zero metrics |
| Analyzer.MatchIssues | test.py:634-650 | one issue per match, the i-th built from the i-th match |
| Analyzer.RegexIssuesShape | test.py:632-688 | a regex stage reports exactly one issue per match, each with the stage's category, severity, confidence and CWE list, an existing line, and the upper-cased name of a table entry |
| Analyzer.RegexAnalysis | test.py:632-650 | the nested loops yield every match's issue, in table order then match order |
| Analyzer.SecurityAnalysis | test.py:610-652 | CRITICAL security issues with confidence 0.85 and CWE-120, CWE-134 for every match of the nine patterns, zero metrics |
| Analyzer.PerformanceAnalysis | test.py:654-688 | MEDIUM performance issues with confidence 0.7 and no CWE for every match of the four patterns, zero metrics |
| Analyzer.RunStages | test.py:487-493 | the stage loop collects the issues of the stages that returned, in order, and merges their metrics in turn |
| Analyzer.RaisedContributesNothing | test.py:487-493 | a stage that raises changes neither the collected issues nor the merged metrics |
| Analyzer.MergedZeroMetrics | test.py:487-493 | stages that all return zero metrics leave the file's metrics all zero |
| Analyzer.CollectedSnoc | test.py:490 | one more stage appends its issues if it returned |
| Analyzer.AnalysisResult | test.py:476-493 | a file's metrics are all zero and its issues are the six stages' issues in stage order; the semantic stage adds none when the file has a declaration, the metrics stage never any |
| Analyzer.CollectedSix | test.py:476-493 | the six stages' issues are concatenated in stage order |
| Analyzer.QuietSix | test.py:476-493 | six stages with zero metrics give zero merged metrics |
| Analyzer.AnalyzeContent | test.py:470-493 | running the stages with isolation yields the analysis of the file's text |
| Analyzer.AdvancedMemoryAnalyzer.AnalyzeFileAdvanced | test.py:465-508 | a cache hit (not forced) returns the stored pair; a failed read returns nothing; otherwise the analysis is returned and stored under the file's hash |
| Report.CountWhere | test.py:792-795 | the count of a key never exceeds the number of issues |
| Report.CountWherePositive | test.py:792-795 | a key's count is positive iff some issue carries it |
| Report.SumCountsSnoc | test.py:792-795 | one more issue adds one to the summed counts exactly when its key is listed |
| Report.SumCountsTotal | test.py:792-795 | when every issue's key is listed once, the counts add up to the number of issues |
| Report.SumCountsEmpty | test.py:781-783 | with no issues every count is zero |
| Report.CountStep | test.py:792-795 | one `+= 1` on a defaultdict raises the issue's own key by one and leaves every other key |
| Report.CountIssues | test.py:781-795 | each of the three defaultdicts holds, for every key, the number of issues carrying it, and has the key iff some issue carries it |
| Report.SeverityCountsTotal | test.py:792-793 | the per-severity counts over the five severities add up to the number of issues |
| Report.CategoryCountsTotal | test.py:794 | the per-category counts over the five categories add up to the number of issues |
| Report.TypeCountsTotal | test.py:795 | the per-type counts over a duplicate-free list of all types add up to the number of issues |
| Report.GenerateRecommendations | test.py:845-877 | at most three recommendations in SECURITY, MEMORY, MAINTAINABILITY order; each present iff some CRITICAL issue, some memory-safety issue, some file of complexity above 20, respectively, with its count |
| Report.ZeroMetricsNoMaintainability | test.py:867-869 | files whose metrics are all zero never trigger the MAINTAINABILITY rule |
| Server.FileExtension | src/server/server.c:113-126 | the extension is present exactly when the path is |
| Server.FilenameWithoutExtension | src/server/server.c:129-146 | the stem is a prefix of the basename and holds no '/' |
| Server.NoSlashInSuffix | src/server/server.c:116-118 | a suffix of a basename holds no '/' |
| Server.SuffixFromLastDot | src/server/server.c:120-125 | the suffix from the last dot, when it is not the first character, is a proper suffix starting with the only dot and holding no '/' |
| Server.ExtensionShape | src/server/server.c:113-126 | the extension is empty or a dot-led proper suffix of the basename with no other dot |
| Server.StemExtensionRoundTrip | src/server/server.c:113-146 | stem plus extension is the basename iff the basename's last dot is not its first character |
| Server.DotfileHasNoParts | src/server/server.c:120-135 | for a dotfile under any directory both stem and extension are empty |
| Server.RecipientAccepted | src/server/server.c:469-481 | the recipient is accepted iff it is empty or exactly 64 lowercase hex digits |
| Server.UppercaseFingerprintRejected | src/server/server.c:475-476 | a 64-character recipient with an upper-case hex digit is refused |
| Server.CheckUpload | src/server/server.c:454-482 | the checks run in order: crypto context, confined name, recipient, giving ERROR, PERMISSION_DENIED or SUCCESS |
| Server.UploadGateIff | src/server/server.c:454-482 | an upload proceeds iff crypto is up, the name has no ".." and no '/', and the recipient is valid; a forbidden name is refused with PERMISSION_DENIED |
| Server.DoubleDotNameRefused | src/server/server.c:463 | a name like "a..b" is refused |
| Server.Tail | src/server/server.c:865-870 | the payload length is the plaintext length minus the offset, clamped at 0 |
| Server.DownloadSuccess | src/server/server.c:735-870 | a successful download had a confined name, an accessible document, an offset within the on-disk size, a 12-byte IV and 16-byte tag and a decryption that authenticated; the header gives the whole plaintext length and prefix plus payload is the plaintext |
| Server.DownloadRefusals | src/server/server.c:736-793 | a forbidden name or an inaccessible document gets PERMISSION_DENIED; with a file on disk the reply is INVALID_OFFSET iff the offset is negative or beyond its size |
| ProcKey.SpaceRun | src/server/server.c:186 | the index ends a maximal run of C-locale white space |
| ProcKey.DigitRun | src/server/server.c:186 | the index ends a maximal run of decimal digits |
| ProcKey.Strtol | src/server/server.c:186 | strtol's value lies in the long range, an overflow clamps to LONG_MAX or LONG_MIN, and no digits means value 0 with the end pointer at the start |
| ProcKey.MaxKey | src/server/server.c:182-191 | the running maximum never falls below its start and is otherwise the value of some key |
| ProcKey.Increment64 | src/server/server.c:213 | int64 `max_key + 1`: one more below LONG_MAX, wrapping to LONG_MIN at it |
| ProcKey.NextProcKey | src/server/server.c:157-215 | no collection or a failed allocation gives NULL; otherwise the key is the decimal of one more than the as-written running maximum over the proc keys |
| ProcKey.MaxKeyRange | src/server/server.c:175-189 | the as-written maximum stays within 0..LONG_MAX |
| ProcKey.MaxKeyBoundsAccepted | src/server/server.c:182-191 | with errno cleared before each call the maximum bounds every fully parsed, non-overflowing key |
| ProcKey.OverflowMasksLaterKeys | src/server/server.c:186-189 | once errno is set, no later key is accepted |
| ProcKey.StrtolDecimal | src/server/server.c:186-213 | reading the printed form of a positive long gives the number with nothing left over |
| ProcKey.DigitRunToEnd | src/server/server.c:186 | an all-digit tail is one digit run |
| ProcKey.NextKeyCorrected | src/server/server.c:157-215 | the corrected key is a non-empty decimal |
| ProcKey.NextKeyFresh | src/server/server.c:182-213 | the corrected key differs from every key already in the map, unless the map holds LONG_MAX |
| ProcKey.DigitStringOverflows | src/server/server.c:186 | an all-digit string too large for a long is parsed to its end and overflows |
| ProcKey.TwentyNinesValue | src/server/server.c:186 | twenty nines exceed LONG_MAX |
| ProcKey.TwentyNinesOverflow | src/server/server.c:186 | strtol overflows on a twenty-digit key |
| ProcKey.ValueAtLeast | src/server/server.c:186 | k + 1 nines are worth at least 10^k |
| ProcKey.Pow10Add | src/server/server.c:186 | 10^(a+b) = 10^a * 10^b |
| ProcKey.ProcKeyCollision | src/server/server.c:182-213 | for the keys "99999999999999999999", "1" the as-written rule gives the colliding key "1", the corrected rule "2" |
| ListReply.ListText | src/server/server.c:703-709 | the reply text starts with '[' and ends with ']' |
| ListReply.Kept | src/server/server.c:677-700 | the documents kept are at most those the cursor yielded |
| ListReply.JoinLength | src/server/server.c:696-699 | the joined documents are their lengths plus one separator between each two |
| ListReply.JoinSnoc | src/server/server.c:696-699 | one more document adds a ',' and the document |
| ListReply.CapacityShortByOne | src/server/server.c:684-705 | with one document the buffer holds the closing bytes exactly; from the second on it is one byte short |
| ListReply.TwoDocumentOverflow | src/server/server.c:684-705 | listing "a" and "b" writes 6 bytes into a 5-byte buffer |
| ListReply.CopyInto | src/server/server.c:698 | the memcpy puts the text at the offset and leaves the cells before it alone |
| ListReply.CopyPrefix | src/server/server.c:692 | realloc's copy keeps the first total_len cells |
| ListReply.FirstBuffer | src/server/server.c:682-698 | the first document's buffer holds "[" and the document, in len + 3 cells |
| ListReply.GrownBuffer | src/server/server.c:690-698 | a later document's buffer holds the old text, ',' and the document, in the corrected size total_len + len + 3 |
| ListReply.ListBuffer.Add | src/server/server.c:677-700 | a cursor step adds the document when its JSON form exists and the allocation succeeds, and leaves two spare cells |
| ListReply.ListBuffer.Finish | src/server/server.c:703-709 | the closing code gives the bracketed list, or "[]" when nothing was kept, and its length |
| ListReply.ListResponse | src/server/server.c:624-733 | the reply is the bracketed join of the kept documents and the announced size is its length |
| ListReply.ReplyLength | src/server/server.c:703-712 | the announced size is 2 for no documents, otherwise the documents' lengths plus their count plus one |
| TestUtils.SignedChar | tests/mocks/test_utils.c:32 | a char read as a signed byte lies in -128..127 and is the character's code below 128 |
| TestUtils.LowerStop | tests/mocks/test_utils.c:32 | the loop runs while the index is below the signed byte at it, and stops at the first index where it is not, or at the end |
| TestUtils.LoweredAsWritten | tests/mocks/test_utils.c:32-36 | the buffer keeps its length |
| TestUtils.LowerInPlace | tests/mocks/test_utils.c:32-36 | the loop lower-cases the buffer up to where its odd bound stops it and leaves the rest untouched |
| TestUtils.KnownExtensionShape | tests/mocks/test_utils.c:38-53 | every known extension is at most four lower-case letters |
| TestUtils.LoweredExtension | tests/mocks/test_utils.c:16-36 | an extension is compared iff strdup succeeds and the argument has a last dot that is not its first character |
| TestUtils.ExtensionToCompare | tests/mocks/test_utils.c:16-36 | the strrchr, first-character test and lowered copy yield that extension |
| TestUtils.GetMimeTypeFromText | tests/mocks/test_utils.c:16-54 | no dot, a leading dot or a failed strdup give octet-stream; otherwise the chain on the copy lowered as written |
| TestUtils.LowerCopy | tests/mocks/test_utils.c:24-36 | the strdup'd copy after the loop is the extension lowered as written |
| TestUtils.LoweredWhenRunToEnd | tests/mocks/test_utils.c:32-36 | a loop that reaches the end lower-cases everything |
| TestUtils.PrintableShortLowered | tests/mocks/test_utils.c:32-36 | for printable text of at most 32 characters the loop never stops early |
| TestUtils.StopCharNotLetter | tests/mocks/test_utils.c:32-53 | a character the loop stops at cannot be part of a known extension |
| TestUtils.EarlyStopUnknown | tests/mocks/test_utils.c:32-53 | when the loop stops early, neither lowering gives a known extension |
| TestUtils.LoweringLoopHarmless | tests/mocks/test_utils.c:16-54 | the lookup as written equals the lookup with the whole extension lower-cased |
| TestUtils.ExtensionLoweringHarmless | tests/mocks/test_utils.c:32-53 | on any extension, the loop as written and full lowering give the same MIME type |
| TestUtils.LeadingDotIsOctetStream | tests/mocks/test_utils.c:20 | a name whose only dot is its first character is octet-stream |
| TestUtils.PdfMimeTest | tests/mocks/test_utils.c:68 | "file.pdf" is application/pdf |
| TestUtils.JpgMimeTest | tests/mocks/test_utils.c:69 | "image.jpg" is image/jpeg |
| TestUtils.UnknownMimeTest | tests/mocks/test_utils.c:70 | "unknown.xyz" is application/octet-stream |
| TestUtils.ExtractFromAbsolutePath | tests/mocks/test_utils.c:57-61 | the basename of "/home/user/docks/report.pdf" is "report.pdf" |
| TestUtils.ExtractFromBareName | tests/mocks/test_utils.c:58-62 | a name without '/' is its own basename |
| TestUtils.ExtractWithoutExtension | tests/mocks/test_utils.c:59-63 | the basename of "/no/extension" is "extension" |
| Daemon.DotCaseEq | src/main.c:58-65 | strcasecmp of a dotted suffix with a dotted lower-case literal compares the lowered text after the dots |
| Daemon.GetMimeTypeByExtension | src/main.c:53-69 | for a name with a dot, the lookup is the daemon's table on the lowered text after the last dot |
| Daemon.TablesAgree | src/main.c:58-68 | the daemon's table equals the test suite's except on html, htm and gif |
| Daemon.MimeLookupsAgree | src/main.c:53-69 | for a name with a dot after its first character, the daemon and the test suite agree except on html, htm and gif |
| Daemon.MimeLookupsDiffer | src/main.c:56-65 | a bare ".pdf" is application/pdf to the daemon and octet-stream to the test suite; "page.HTML" is octet-stream to the daemon |
| Daemon.HandleFileCreated | src/main.c:71-91 | an insert happens iff the path is a regular file; its name holds no '/' and its MIME type is the name's |
| Daemon.CreatedUnderExchangeDir | src/main.c:185-189 | a file moved into the exchange directory is inserted under its own name |
| Daemon.FullPathFits | src/main.c:186-187 | the full path of a name of at most 255 bytes fits PATH_MAX |
| Daemon.U32 | src/main.c:178-179 | a 32-bit header field is four bytes |
| Daemon.ReadU32Encoded | src/main.c:178-180 | reading a little-endian field back gives the value written |
| Daemon.EncodeEvent | src/main.c:178-194 | a record is the 16-byte header followed by len name bytes |
| Daemon.EncodeAll | src/main.c:167-178 | a non-empty buffer holds at least one header |
| Daemon.RecordAt | src/main.c:179-194 | at a record's start the mask and len fields read back, the name follows the header, and the next record starts after header plus len |
| Daemon.CName | src/main.c:187-191 | the C string of the name is no longer than its bytes |
| Daemon.ActionsOf | src/main.c:180-192 | each record triggers at most one handler call |
| Daemon.Dispatch | src/main.c:178-195 | at most one call per record |
| Daemon.DispatchRecord | src/main.c:179-194 | one loop turn makes the record's calls and moves the cursor past the header and name to the next record |
| Daemon.WalkEvents | src/main.c:178-195 | walking the buffer of any encoded records makes exactly the calls their dispatch prescribes, in order |
| Daemon.MovedToTakesPrecedence | src/main.c:185-192 | a record both moved in and deleted counts as a creation |
| ObfusText.Level.Rank | obfus.c:14-19 | the levels are numbered 1 to 4 |
| ObfusText.LevelOf | obfus.c:914-919 | `-l` is accepted exactly for 1 to 4, and the level's number is the argument |
| ObfusText.SwitchesSetFlags | obfus.c:892-941 | after any sequence of flag switches each flag is on iff its letter occurred, and the level stays normal |
| ObfusText.InSnoc | obfus.c:906 | a switch is among the first k + 1 iff among the first k or the last |
| ObfusText.ForHeaderBeforeBrace | obfus.c:175-177 | the first "){" after "for (" lies at offset 5 or later |
| ObfusText.PolymorphicIf | obfus.c:153-158 | "if (" becomes "if ((" and the scan goes on after it |
| ObfusText.PolymorphicIncrement | obfus.c:160-165 | "++" becomes " += 1" and is not read again |
| ObfusText.PolymorphicDecrement | obfus.c:167-172 | "--" becomes " -= 1" |
| ObfusText.IndexOfFirst | obfus.c:177 | strstr finds the first occurrence |
| ObfusText.PolymorphicFor | obfus.c:175-193 | "for (" inner "){" becomes "{ int " inner "; while(1) {" and the scan resumes after "){" |
| ObfusText.NoEarlyClose | obfus.c:177 | no "){" occurs before the one closing a header with none inside |
| ObfusText.NotStartingWith | obfus.c:153-175 | a text whose first character differs from a pattern's does not start with it |
| ObfusText.PolymorphicCopiesChar | obfus.c:196 | a character that starts no pattern is copied |
| ObfusText.PolymorphicCopiesPlain | obfus.c:196 | a run of characters that start no pattern is copied as it stands |
| ObfusText.PolymorphicForUnclosed | obfus.c:175-196 | "for (" with no "){" after it is copied as it stands |
| ObfusText.OccursInTail | obfus.c:151-196 | an occurrence in the tail is one position further in the text |
| ObfusText.PolymorphicIdentity | obfus.c:144-201 | text without any rewritten pattern comes out unchanged |
| ObfusText.PolymorphicGrows | obfus.c:144-201 | the pass never shortens the text |
| ObfusText.PolymorphicTwice | obfus.c:850-853 | a second run reads the inserted parenthesis as text: "if (" becomes "if (((" |
| ObfusText.SkipIncludes | obfus.c:734-743 | what is kept is a suffix of the input |
| ObfusText.SkippedLineShape | obfus.c:735-738 | each skipped line starts with "#include" and ends at its only newline |
| ObfusText.ImportStep | obfus.c:735-740 | skipping a line continues both scans after its newline |
| ObfusText.ImportShape | obfus.c:734-746 | the input is the skipped lines followed by the kept text |
| ObfusText.ConcatCons | obfus.c:734-743 | the text of a line list is its first line then the rest |
| ObfusText.ImportStops | obfus.c:734-743 | the kept text does not start with "#include", or it has no newline at all |
| ObfusText.SkippedAreIncludeLines | obfus.c:734-743 | every skipped line is one "#include" line with its newline |
| ObfusText.SkipIncludesStops | obfus.c:734-743 | skipping again skips nothing more, unless an unfinished include line is left |
| ObfusText.ImportKeepsBody | obfus.c:730-746 | a text not starting with "#include" is kept whole after the header |
| ObfusText.ImportOverflowsReadBuffer | obfus.c:730-763 | for such a text, the rewritten text and its NUL exceed read_file's buffer |
| ObfusText.AntiDebugLengthens | obfus.c:253-303 | with no "main(" the anti-debug result is the prelude plus the whole text, so it is longer than the text it overwrites |
| ObfusText.SkipOneIncludeLine | obfus.c:734-743 | one leading "#include" line is skipped and the scan stops at a body that does not start with "#include" |
| ObfusText.AntiDebugOverflowsReadBuffer | obfus.c:253-303 | with an include line as long as the import header, the import result fits read_file's buffer exactly and the anti-debug write-back then exceeds it |
| ObfusText.AfterBrace | obfus.c:293-295 | copying resumes just after the first '{' from the position, or at the end when there is none |
| ObfusText.AntiDebug | obfus.c:253-304 | the output starts with the anti-debug prelude |
| ObfusText.AntiDebugWithoutMain | obfus.c:296-298 | with no "main(" the text follows the prelude unchanged |
| ObfusText.AntiDebugWithMain | obfus.c:284-295 | the text from "main(" to the first '{' is replaced by the fixed main header |
| ObfusText.AntiDebugMainWithoutBody | obfus.c:294-301 | with no '{' after "main(" everything from there on is dropped |
| ObfusText.AfterBraceAt | obfus.c:294-295 | resumption is right after the first brace |
| ObfusText.ReturnTypeDoubled | obfus.c:284-291 | "int main(...) {" comes out as "int int main(int argc, char **argv) {..." |
| ObfusText.ClosingQuote | obfus.c:318-324 | the closing quote is the first '"' not preceded by a backslash; None when there is none |
| ObfusText.ByteOf | obfus.c:338 | a character below 256 is its own byte |
| ObfusText.EncodeByte | obfus.c:339 | every emitted number is a non-zero multiple of 0x4D within the range the keys give |
| ObfusText.DecodeEncodeByte | obfus.c:339 | the encoding of a byte can be decoded back to it |
| ObfusText.DecodeMultiple | obfus.c:339 | dividing out the multiplier and subtracting the additive key recovers the XORed byte |
| ObfusText.DivideBack | obfus.c:339 | ((v + 0x29) * 0x4D) / 0x4D - 0x29 == v |
| ObfusText.XorTwice | obfus.c:339 | XOR with 0xAA twice is the identity |
| ObfusText.EncodeByteInjective | obfus.c:339 | different bytes are emitted as different numbers |
| ObfusText.Codes | obfus.c:337-343 | one number per character between the quotes, the i-th encoding the i-th byte |
| ObfusText.Bytes | obfus.c:338 | one byte per character |
| ObfusText.DecodeCodesRoundTrip | obfus.c:337-347 | the number list with its closing 0 decodes back to the literal's bytes |
| ObfusText.WithoutQuotes | obfus.c:315-367 | dropping quotes never lengthens a text |
| ObfusText.WithoutQuotesAppend | obfus.c:315-367 | dropping quotes distributes over concatenation |
| ObfusText.KeepOne | obfus.c:366 | a copied character keeps the "only quotes dropped" relation |
| ObfusText.KeepLiteral | obfus.c:356-358 | a copied literal keeps the relation |
| ObfusText.DropQuote | obfus.c:318-366 | a skipped quote keeps the relation |
| ObfusText.NormalStringsStep | obfus.c:315-367 | at the normal level: a plain character is copied, a closed literal copied whole, an unclosed quote dropped |
| ObfusText.NormalStringsOnlyDropQuotes | obfus.c:307-371 | at the normal level the pass only deletes '"' characters |
| ObfusText.StringsWithoutQuotes | obfus.c:315-367 | text without '"' passes every level unchanged |
| ObfusText.NormalCopiesLiteral | obfus.c:356-358 | a literal without quotes or backslashes inside is copied whole at the normal level |
| ObfusText.ClosingQuoteAt | obfus.c:320-324 | the scan stops at the first unescaped quote |
| ObfusText.UnclosedQuoteDropped | obfus.c:316-366 | an opening quote never closed disappears and the text after it is kept |
| ObfusText.CloseParen | obfus.c:388-396 | the condition ends just after the ')' that brings the depth to 0 |
| ObfusText.BraceOrChar | obfus.c:425-433 | any character but '}' is kept |
| ObfusText.ReplaceBraces | obfus.c:425-433 | text without '}' is unchanged |
| ObfusText.FlattenBracesOnly | obfus.c:374-438 | without "if (" flattening only replaces the braces, whatever the counter |
| ObfusText.CloseParenPlain | obfus.c:388-396 | a condition without parentheses ends right after its ')' |
| ObfusText.FlattenIf | obfus.c:384-421 | an if condition without parentheses is wrapped with the current state number and the number goes up by one |
| ObfusText.FlattenPlainPrefix | obfus.c:425-433 | text without an 'i' only has its braces replaced |
| ObfusText.FlattenNumbersConditions | obfus.c:381-417 | the i-th closed "if (" is wrapped with state number k + i, with the braces between replaced |
| ObfusText.UnclosedIfDropped | obfus.c:384-433 | an "if (" that never closes disappears and what follows is kept |
| ObfusText.CloseParenNever | obfus.c:390-396 | without a ')' the depth never reaches 0 |
| ObfusText.ScheduleStart | obfus.c:808-821 | every run starts with imports, polymorphic, metamorphic, then the anti-debug prelude whatever its flag |
| ObfusText.ScheduleMembers | obfus.c:819-845 | string obfuscation runs iff its flag is set; flattening and opaque predicates iff the level is at least medium; arithmetic iff also its flag; dead code iff at least extreme |
| ObfusText.CountPass | obfus.c:808-854 | a pass occurs at most as often as the schedule is long |
| ObfusText.CountPassAppend | obfus.c:808-854 | counts add over concatenated schedules |
| ObfusText.SchedulePolymorphicCount | obfus.c:847-853 | the polymorphic pass is called four times at the quantum level and once below it |
| ObfusText.MiddleCount | obfus.c:819-845 | the level blocks before the quantum rounds call no polymorphic pass |
| ObfusText.BasicCount | obfus.c:810-816 | the basic block calls the polymorphic pass once |
| ObfusText.QuantumRoundsCount | obfus.c:850-853 | the quantum rounds call it three times |
| ObfusText.CountPassAbsent | obfus.c:808-854 | a pass that does not occur is counted zero times |
| ObfusText.RunSnoc | obfus.c:808-854 | one more pass applies to the previous result as the next call |
| ObfusText.RunAppend | obfus.c:808-854 | running two schedules in turn is running their concatenation |
| ObfusText.RunFour | obfus.c:808-827 | four passes in a row are numbered 0 to 3 |
| ObfusText.DefaultSchedule | obfus.c:808-827 | with the default switches the driver calls exactly imports, polymorphic, metamorphic, anti-debug |
| ObfusText.DefaultObfuscation | obfus.c:790-827 | with the default switches the output is the anti-debug prelude over the text with its includes replaced, independent of rand() |
| ObfusText.StepImport | obfus.c:703-749 | the import pass runs whatever the flags |
| ObfusText.StepPolymorphic | obfus.c:144-145 | the polymorphic pass rewrites only with its flag |
| ObfusText.StepMetamorphic | obfus.c:204-205 | the metamorphic pass acts only with its flag |
| ObfusText.StepAntiDebug | obfus.c:253-304 | the anti-debug pass runs whatever its flag |
| ObfusText.StepStrings | obfus.c:307-308 | the string pass acts only with its flag |
| ObfusText.StepFlatten | obfus.c:374-375 | flattening acts only with its flag |
| ObfusText.StepOpaque | obfus.c:441-446 | the opaque-predicate pass has no flag |
| ObfusText.StepArithmetic | obfus.c:490-491 | the arithmetic pass acts only with its flag |
| ObfusText.StepDeadCode | obfus.c:580-581 | dead-code injection acts only with its flag |
| Obfuscator.PolymorphicAt | obfus.c:153-172 | the three fixed rewrites, each with where the scan resumes |
| Obfuscator.PolymorphicForAt | obfus.c:175-193 | a closed "for (" header: the rewritten piece and resumption after "){" |
| Obfuscator.PolymorphicCopyAt | obfus.c:196 | any other position copies one character |
| Obfuscator.PolymorphicStep | obfus.c:151-197 | one turn of the scan emits a piece and moves forward, so that the piece followed by the rewrite of the rest is the rewrite from the old position |
| Obfuscator.ForOrCopyStep | obfus.c:175-197 | a turn at a position that starts none of the three fixed patterns: a closed "for (" header or one copied character |
| Obfuscator.ForStep | obfus.c:175-194 | a closed "for (" header is rewritten and the scan resumes after its "){" |
| Obfuscator.RewritePolymorphic | obfus.c:144-201 | the loop's result is the polymorphic rewrite of the text |
| Obfuscator.SkipLineAt | obfus.c:735-740 | skipping one include line leaves the same kept text |
| Obfuscator.SkipStopsAt | obfus.c:735-743 | where the loop stops, the rest of the text is what is kept |
| Obfuscator.SkipIncludeLines | obfus.c:734-743 | the loop leaves exactly the text after the leading include lines |
| Obfuscator.FindBodyStart | obfus.c:293-295 | the brace-skipping loop ends just after the first '{' at or after "main(", or at the end |
| Obfuscator.FindClosingQuote | obfus.c:316-322 | the scan finds the first unescaped closing quote, or reports that there is none |
| Obfuscator.CodesTextSnoc | obfus.c:337-343 | one more number appends its decimal digits and a comma |
| Obfuscator.EmitCodes | obfus.c:337-343 | the loop writes the encoded bytes of the characters between the quotes |
| Obfuscator.EmitLiteral | obfus.c:326-358 | the piece for one literal at each level, and how many random draws it takes |
| Obfuscator.StringsCopyAt | obfus.c:366 | a character other than '"' is copied |
| Obfuscator.StringsLiteralAt | obfus.c:324-362 | a closed literal is replaced by its level's piece and the scan resumes after it |
| Obfuscator.StringsUnclosedAt | obfus.c:316-366 | an unclosed quote is dropped and the next character copied |
| Obfuscator.LiteralStep | obfus.c:324-362 | one closed literal advances the scan past its closing quote |
| Obfuscator.QuoteStep | obfus.c:316-366 | a turn at a quote either replaces a literal or drops the quote |
| Obfuscator.StringsStep | obfus.c:315-367 | one turn of the string scan keeps the rewrite of the rest equal to the rewrite from the old position |
| Obfuscator.RewriteStrings | obfus.c:307-371 | the loop's result is the string obfuscation of the text |
| Obfuscator.ScanCondition | obfus.c:388-394 | the depth scan finds the end of the condition, or none |
| Obfuscator.FlattenIfAt | obfus.c:384-423 | a closed "if (" is wrapped with the current state number and the counter goes up |
| Obfuscator.FlattenUnclosedAt | obfus.c:384-433 | an unclosed "if (" is dropped and the next character kept |
| Obfuscator.FlattenCharAt | obfus.c:425-433 | any other character is kept, a '}' replaced |
| Obfuscator.BraceOrCopy | obfus.c:425-433 | the piece for one character |
| Obfuscator.IfStep | obfus.c:384-423 | one turn at "if (" advances and keeps the flattening of the rest equal |
| Obfuscator.FlattenStep | obfus.c:382-434 | one turn of the scan advances and keeps the flattening of the rest equal |
| Obfuscator.RewriteFlatten | obfus.c:374-438 | the loop's result is the flattening of the text with the counter starting at 0 |
| Obfuscator.DriverRun | obfus.c:808-854 | running the level blocks one after the other is running the whole schedule |
| Obfuscator.Source.ReadFile | obfus.c:752-774 | read_file holds the text in a buffer one byte longer |
| Obfuscator.Source.Store | obfus.c:748 | the write-back every pass ends with: the content becomes the result, and the buffer grows only when the result and its NUL do not fit (the C buffer never grows) |
| Obfuscator.Source.ImportObfuscation | obfus.c:703-749 | the content becomes the import rewrite |
| Obfuscator.Source.PolymorphicTransform | obfus.c:144-201 | the content is rewritten iff the flag is set |
| Obfuscator.Source.AntiDebugFunctions | obfus.c:253-304 | the content always gets the anti-debug prelude |
| Obfuscator.Source.AdvancedStringObfuscation | obfus.c:307-371 | the literals are rewritten for the level iff the flag is set |
| Obfuscator.Source.ControlFlowFlattening | obfus.c:374-438 | the content is flattened iff the flag is set |
| Obfuscator.Source.MetamorphicEngine | obfus.c:203-250 | the random rewrite applies iff the flag is set |
| Obfuscator.Source.OpaquePredicates | obfus.c:441-487 | the random rewrite always applies |
| Obfuscator.Source.ArithmeticObfuscationAdvanced | obfus.c:491-577 | the random rewrite applies iff the flag is set |
| Obfuscator.Source.DeadCodeInjection | obfus.c:581-699 | the random rewrite applies iff the flag is set |
| Obfuscator.Source.BasicStage | obfus.c:808-816 | imports, polymorphic, metamorphic in that order |
| Obfuscator.Source.NormalStage | obfus.c:819-827 | anti-debug, and strings by their flag |
| Obfuscator.Source.MediumStage | obfus.c:829-840 | flattening, opaque predicates and arithmetic |
| Obfuscator.Source.ExtremeStage | obfus.c:842-845 | dead code at the extreme level and above |
| Obfuscator.Source.QuantumRound | obfus.c:850-853 | one round adds a polymorphic and a metamorphic call |
| Obfuscator.Source.QuantumLoop | obfus.c:847-854 | three rounds |
| Obfuscator.Source.QuantumStage | obfus.c:847-854 | the rounds run only at the quantum level |
| Obfuscator.Source.ObfuscateCodeAdvanced | obfus.c:790-867 | the content becomes the schedule for the configuration applied to it |

## Left out

- Regular expressions of `test.py` (the pattern tables, the allocation/free/use, declaration, security and performance patterns, the function-header matcher): they are abstract matchers passed in by the caller, because the engine's semantics are not modelled.
- Process pool, `as_completed` and the 300 s timeout of the analyser: concurrency is not modelled; the cache is a single-threaded field. In the program the workers' cache writes never reach the parent process.
- Pickle load/save of the cache, `rglob` discovery, MD5 hashing (the hash is a parameter), reading a file (its decoded content is an Option parameter), `time.time()` issue ids, logging, argparse and the JSON/HTML report writers: I/O and environment.
- radon and clang backends, and `statistics.mean` in the metrics summary: optional libraries and float statistics. Weights, confidences and metrics are Dafny reals, with no floating-point rounding.
- Analyzer.SemanticAnalysis: only the case without a declaration match returns a result; the symbol table the code would build after the TypeError is not modelled, because that code is never reached.
- TLS, sockets, pthreads, signals, the logger, MongoDB/BSON calls, BLAKE3 and the AES-GCM primitives of the server: they are library calls. The file read and the AES-GCM decryption are parameters of the DOWNLOAD model, and a stored document is a value.
- Server.FilenameWithoutExtension: the NULL result when `malloc` fails is not modelled; allocation is taken to succeed.
- Server.FileExtension: the NULL result when `strdup` fails (src/server/server.c:122, 125) is not modelled; allocation is taken to succeed, so a non-NULL path always gives a string.
- Daemon.WalkEvents: when `snprintf` of the full path returns a negative value (src/main.c:187-188), the C loop `continue`s without advancing `ptr` and spins on the same record; the model always advances. `snprintf` fails only on an output or encoding error, and the path always fits (Daemon.FullPathFits), so that branch is not modelled.
- The use of `doc` after `bson_destroy` in the upload handler: it depends on the BSON library's memory.
- The `$or` filter built but not used by LIST: the model lists every document the cursor yields.
- `include/protocol.h` lacks several fields and codes that server.c uses; the request shape follows server.c, and FINGERPRINT_LEN - 1 is taken as 64.
- The client program, `send_all`/`recv_all`, the crypto and database wrappers, and the source files that do not compile: all of these are I/O glue outside the rule logic.
- The daemon's inotify setup, the `read()` call, MongoDB insertion and `stat()`: the buffer a read returns is a parameter, and so is the file size.
- The random passes of the obfuscator (`metamorphic_engine`, `opaque_predicates`, `arithmetic_obfuscation_advanced`, `dead_code_injection`), the random names and `init_advanced_obfuscator`: they depend on `rand()`. Each is an abstract rewrite `Env.other` taking the pass and its call number. The literals' random choices at the medium and extreme levels come from `draws` and a pool of names.
- `read_file`/`write_file` I/O, `getopt` input and output paths and `-h`: the text read is the constructor's argument, and the switches are a list of letters.
- Fixed buffers of the obfuscator (`loop_temp[512]`, `original_string[2048]`, the 2–4 MiB result arrays): texts are unbounded sequences, so overflow of these buffers is not modelled. The overflow of `content` itself, which all nine passes share through their `strcpy(content, result)` write-back, is under Findings.
- Reading past the terminating NUL: when an unclosed '"' is the last character, or an unclosed "if (" ends the text, the C code reads beyond the string. The model stops the pass there.
- NUL bytes inside the obfuscator's content, and characters wider than a byte: `strcpy` semantics are modelled on NUL-free text, and a char is read as its code below 256.
- The 64-bit and errno semantics of `strtol` are modelled; locales other than C are not.

## Findings

| source | as written | input that shows it | evidently intended | confidence | as-written member | corrected member |
|---|---|---|---|---|---|---|
| src/server/server.c:684-705 | from the second document on, the realloc reserves room for the ',' and the document but not for the closing ']' and '\0' written at the end | two documents whose JSON forms are "a" and "b": the reply "[a,b]" and its '\0' need 6 bytes, but the buffer holds 5 | reserve the ',' , the document, ']' and '\0' | not executed | ListReply.TwoDocumentOverflow | ListReply.ListBuffer.Add |
| src/server/server.c:186-189 | errno is read after strtol but never cleared before it, so a key that overflows earlier makes every later key look like an overflow | keys "99999999999999999999" then "1": no key is accepted and the next key is "1", which is already in use | clear errno before each strtol, giving "2" | not executed | ProcKey.ProcKeyCollision | ProcKey.NextKeyCorrected |
| obfus.c:748-763 | every pass ends with `strcpy(content, result)` (obfus.c:200, 249, 303, 370, 437, 487, 577, 699, 748) into the `malloc(length + 1)` buffer `read_file` returned, which never grows; the import pass, the first to run, writes a result that starts with a fixed header | any text not starting with "#include": the result is longer than the text, so the copy writes past the buffer | grow the buffer before each copy | not executed | ObfusText.ImportOverflowsReadBuffer | Obfuscator.Source.Store |
| obfus.c:253-303 | the anti-debug pass, which runs on every configuration, copies the prelude followed by the text back into the same buffer, so it overflows even when the import result fitted | one "#include" line exactly as long as the import header, then text without "main(": the import result fills the buffer exactly and the anti-debug result is longer | grow the buffer before each copy | not executed | ObfusText.AntiDebugOverflowsReadBuffer | Obfuscator.Source.Store |
