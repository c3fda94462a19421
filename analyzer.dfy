/**
 * AdvancedMemoryAnalyzer: the six analysis stages of one file, the
 * per-stage fault isolation that combines their results, the
 * content-hash cache around them, and the small lookup tables and
 * position helper the stages use. Every regular expression is an
 * abstract matcher supplied in `Matchers`.
 */
module Analyzer {
  import opened Wrappers
  import opened Text
  import opened AnalyzerTypes
  import opened PatternEngine
  import opened ControlFlow
  import opened DataFlow

  /** The complexity radon reports for one function. */
  datatype FunctionComplexity = FunctionComplexity(name: string, complexity: nat)

  /** The regex matchers and external backends the stages consult, as uninterpreted functions. */
  datatype Matchers = Matchers(
    patterns: (nat, string) -> seq<RegexMatch>,            // the pattern table's regex `id` on a text
    lines: LineMatchers,                                   // the three per-line matchers of the data-flow tracker
    branchCount: string -> nat,                            // findall of if/for/while/switch openings
    declarationFound: string -> bool,                      // some variable-declaration pattern matches
    functionComplexities: string -> seq<FunctionComplexity>, // the complexity backend's per-function report
    security: (nat, string) -> seq<RegexMatch>,            // security pattern `id` on a text
    performance: (nat, string) -> seq<RegexMatch>)         // performance pattern `id` on a text

  function Min(a: nat, b: nat): nat {
    if a <= b then a else b
  }

  lemma CountPrefix(s: string, p: nat, c: char)
    requires p <= |s|
    ensures CountChar(s[..p], c) <= CountChar(s, c)
  {
    assert s == s[..p] + s[p..];
    CountCharAppend(s[..p], s[p..], c);
  }

  /**
   * _find_line_number: one plus the number of newlines before `position`;
   * a position past the end counts every newline (Python slices clamp).
   */
  function LineNumber(content: string, position: nat): (r: nat)
    ensures 1 <= r <= CountChar(content, '\n') + 1
  {
    CountPrefix(content, Min(position, |content|), '\n');
    CountChar(content[..Min(position, |content|)], '\n') + 1
  }

  /** A later position never lies on an earlier line. */
  lemma LineNumberMonotone(content: string, p: nat, q: nat)
    requires p <= q
    ensures LineNumber(content, p) <= LineNumber(content, q)
  {
    var q' := Min(q, |content|);
    var p' := Min(p, |content|);
    assert content[..q'] == content[..p'] + content[p'..q'];
    CountCharAppend(content[..p'], content[p'..q'], '\n');
  }

  /** Stepping over a newline moves to the next line; stepping over any other character stays on it. */
  lemma LineNumberStep(content: string, p: nat)
    requires p < |content|
    ensures LineNumber(content, p + 1) == LineNumber(content, p) + (if content[p] == '\n' then 1 else 0)
  {
    assert content[..p + 1] == content[..p] + [content[p]];
    CountCharAppend(content[..p], [content[p]], '\n');
  }

  /** The type-size table of _estimate_size. */
  const SizeTable: map<string, nat> :=
    map["char" := 1, "int" := 4, "float" := 4, "double" := 8, "long" := 8, "short" := 2, "void*" := 8]

  /** _estimate_size: the table's size, 4 for any other type name. */
  function EstimateSize(typeName: string): (r: nat)
    ensures r in {1, 2, 4, 8}
    ensures r != 4 ==> typeName in {"char", "short", "double", "long", "void*"}
  {
    if typeName in SizeTable then SizeTable[typeName] else 4
  }

  /**
   * The declaration patterns capture the type as a run of word
   * characters, so the "void*" entry is never consulted: for such a name
   * the size is 8 exactly for double and long.
   */
  lemma WordTypeSize(typeName: string)
    requires '*' !in typeName
    ensures EstimateSize(typeName) == 8 <==> typeName == "double" || typeName == "long"
  {
  }

  /** _get_cwe_mappings. */
  function CweMappings(issueType: string): (r: seq<string>)
    ensures |r| <= 2
    ensures r != [] <==> issueType in {"memory_leak", "double_free", "use_after_free", "buffer_overflow", "null_pointer"}
  {
    if issueType == "memory_leak" then ["CWE-401"]
    else if issueType == "double_free" then ["CWE-415"]
    else if issueType == "use_after_free" then ["CWE-416"]
    else if issueType == "buffer_overflow" then ["CWE-120", "CWE-119"]
    else if issueType == "null_pointer" then ["CWE-476"]
    else []
  }

  /** Every pattern category has a CWE list except concurrency_issues. */
  lemma RuleKindCwe(k: RuleKind)
    ensures CweMappings(k.Name()) == [] <==> k == ConcurrencyIssues
  {
  }

  // ---------------------------------------------------------------------
  // The pattern stage

  /** _build_file_context: the pieces the heuristics read. */
  function BuildFileContext(content: string, m: Matchers): (ctx: FileContext)
    ensures ctx.lineCount == CountChar(content, '\n') + 1
    ensures ComplexityFactor(ctx) == 1.2 <==> m.branchCount(content) > 10
  {
    FileContext(|Split(content, '\n')|, m.branchCount(content) > 10)
  }

  /** The pattern engine's surviving candidates for a file. */
  function PatternResults(content: string, m: Matchers): seq<Candidate> {
    Filtered(Candidates(RuleTable, content, m.patterns), content, BuildFileContext(content, m))
  }

  /**
   * A candidate survives the pattern stage exactly when it is a table
   * match whose weight, rescaled by the destructor factor and by 1.2 when
   * the file has more than ten branch openings, exceeds 0.6.
   */
  lemma PatternResultsAdjusted(content: string, m: Matchers, x: Candidate)
    ensures x in PatternResults(content, m) <==>
            exists c :: c in Candidates(RuleTable, content, m.patterns) &&
                        x == c.(weight := c.weight * DestructorFactor(c, content) *
                                          (if m.branchCount(content) > 10 then 1.2 else 1.0)) &&
                        x.weight > 0.6
  {
    FilteredMembership(Candidates(RuleTable, content, m.patterns), content, BuildFileContext(content, m), x);
  }

  /** The issue _pattern_based_analysis builds from one surviving candidate. */
  function PatternIssue(filePath: string, content: string, c: Candidate): Issue {
    Issue(filePath, LineNumber(content, c.start), 0, UpperAscii(c.kind.Name()), MemorySafety,
          if c.weight > 0.8 then High else Medium,
          c.matchText[..Min(200, |c.matchText|)], c.weight, CweMappings(c.kind.Name()))
  }

  function PatternIssues(filePath: string, content: string, cs: seq<Candidate>): (r: seq<Issue>)
    ensures |r| == |cs|
  {
    if |cs| == 0 then []
    else PatternIssues(filePath, content, cs[..|cs| - 1]) + [PatternIssue(filePath, content, cs[|cs| - 1])]
  }

  lemma {:induction false} PatternIssuesAt(filePath: string, content: string, cs: seq<Candidate>, i: nat)
    requires i < |cs|
    ensures PatternIssues(filePath, content, cs)[i] == PatternIssue(filePath, content, cs[i])
  {
    if i < |cs| - 1 {
      PatternIssuesAt(filePath, content, cs[..|cs| - 1], i);
    }
  }

  /** _pattern_based_analysis: one memory-safety issue per surviving candidate, in order. */
  method PatternBasedAnalysis(filePath: string, content: string, m: Matchers)
    returns (issues: seq<Issue>, metrics: FileMetrics)
    ensures issues == PatternIssues(filePath, content, PatternResults(content, m))
    ensures metrics == ZeroMetrics
  {
    var fileContext := BuildFileContext(content, m);
    var results := AnalyzeWithContext(content, fileContext, m.patterns);
    issues := ReportCandidates(filePath, content, results);
    metrics := ZeroMetrics;
  }

  /** The loop of _pattern_based_analysis turning each result into an issue. */
  method ReportCandidates(filePath: string, content: string, results: seq<Candidate>) returns (issues: seq<Issue>)
    ensures issues == PatternIssues(filePath, content, results)
  {
    issues := [];
    var k := 0;
    while k < |results|
      invariant 0 <= k <= |results|
      invariant issues == PatternIssues(filePath, content, results[..k])
    {
      assert results[..k + 1][..k] == results[..k];
      issues := issues + [PatternIssue(filePath, content, results[k])];
      k := k + 1;
    }
    assert results[..k] == results;
  }

  /**
   * Every pattern issue is a memory-safety issue on an existing line, with
   * confidence above the 0.6 floor, rated HIGH exactly when the confidence
   * exceeds 0.8, with a snippet of at most 200 characters.
   */
  lemma PatternIssueShape(filePath: string, content: string, m: Matchers, i: nat)
    requires i < |PatternIssues(filePath, content, PatternResults(content, m))|
    ensures var x := PatternIssues(filePath, content, PatternResults(content, m))[i];
            && x.category == MemorySafety
            && x.confidence > 0.6
            && (x.severity == High <==> x.confidence > 0.8)
            && (x.severity == High || x.severity == Medium)
            && 1 <= x.line <= CountChar(content, '\n') + 1
            && |x.snippet| <= 200
  {
    PatternIssuesAt(filePath, content, PatternResults(content, m), i);
  }

  // ---------------------------------------------------------------------
  // The semantic stage

  /** The HIGH_COMPLEXITY issue for one function; the position is always line 1. */
  function ComplexityIssue(filePath: string, f: FunctionComplexity): Issue {
    Issue(filePath, 1, 0, "HIGH_COMPLEXITY", CodeQuality, Medium, "Функция: " + f.name, 0.9, [])
  }

  /** One issue per function of complexity above 10, in report order. */
  function ComplexityIssues(filePath: string, fs: seq<FunctionComplexity>): (r: seq<Issue>)
    ensures |r| <= |fs|
  {
    if |fs| == 0 then []
    else
      var rest := ComplexityIssues(filePath, fs[..|fs| - 1]);
      if fs[|fs| - 1].complexity > 10 then rest + [ComplexityIssue(filePath, fs[|fs| - 1])] else rest
  }

  /** An issue is reported exactly for a function above the threshold. */
  lemma {:induction false} ComplexityIssuesIff(filePath: string, fs: seq<FunctionComplexity>, x: Issue)
    ensures x in ComplexityIssues(filePath, fs) <==>
            exists f :: f in fs && f.complexity > 10 && x == ComplexityIssue(filePath, f)
  {
    if |fs| > 0 {
      var init := fs[..|fs| - 1];
      ComplexityIssuesIff(filePath, init, x);
      assert fs == init + [fs[|fs| - 1]];
      if exists f :: f in fs && f.complexity > 10 && x == ComplexityIssue(filePath, f) {
        var f :| f in fs && f.complexity > 10 && x == ComplexityIssue(filePath, f);
        if f != fs[|fs| - 1] {
          assert f in init;
        }
      }
    }
  }

  /** What a stage produced: it raised, or it returned its issues and metrics. */
  datatype Outcome = Raised | Returned(issues: seq<Issue>, metrics: FileMetrics)

  /**
   * _semantic_analysis. analyze_symbols compares `match.groups()` (a
   * tuple) with 1, which raises TypeError at the first declaration match,
   * so the stage raises whenever the file has a declaration; otherwise it
   * reports the complex functions.
   */
  method SemanticAnalysis(filePath: string, content: string, m: Matchers) returns (outcome: Outcome)
    ensures m.declarationFound(content) ==> outcome == Raised
    ensures !m.declarationFound(content) ==>
              outcome == Returned(ComplexityIssues(filePath, m.functionComplexities(content)), ZeroMetrics)
  {
    if m.declarationFound(content) {
      return Raised;
    }
    var complexityMetrics := m.functionComplexities(content);
    var issues: seq<Issue> := [];
    var k := 0;
    while k < |complexityMetrics|
      invariant 0 <= k <= |complexityMetrics|
      invariant issues == ComplexityIssues(filePath, complexityMetrics[..k])
    {
      assert complexityMetrics[..k + 1][..k] == complexityMetrics[..k];
      if complexityMetrics[k].complexity > 10 {
        issues := issues + [ComplexityIssue(filePath, complexityMetrics[k])];
      }
      k := k + 1;
    }
    assert complexityMetrics[..k] == complexityMetrics;
    outcome := Returned(issues, ZeroMetrics);
  }

  // ---------------------------------------------------------------------
  // The security and performance stages: a table of (issue type, pattern)
  // visited in order, every match of every pattern becoming one issue.

  /** The security patterns, grouped by vulnerability type in dictionary order. */
  const SecurityTable: seq<(string, nat)> := [
    ("buffer_overflow", 0), ("buffer_overflow", 1), ("buffer_overflow", 2), ("buffer_overflow", 3),
    ("format_string", 4), ("format_string", 5),
    ("command_injection", 6), ("command_injection", 7), ("command_injection", 8)
  ]

  /** The performance patterns, grouped by problem type in dictionary order. */
  const PerformanceTable: seq<(string, nat)> := [
    ("inefficient_loop", 0), ("inefficient_loop", 1),
    ("redundant_copy", 2), ("redundant_copy", 3)
  ]

  /** The fixed attributes a regex stage gives its issues. */
  datatype Rating = Rating(category: Category, severity: Severity, confidence: real, cwe: seq<string>)

  const SecurityRating := Rating(Security, Critical, 0.85, ["CWE-120", "CWE-134"])
  const PerformanceRating := Rating(Performance, Medium, 0.7, [])

  /** The issue for one match. */
  function MatchIssue(filePath: string, content: string, issueType: string, mt: RegexMatch, rating: Rating): Issue {
    Issue(filePath, LineNumber(content, mt.start), 0, UpperAscii(issueType),
          rating.category, rating.severity, mt.text, rating.confidence, rating.cwe)
  }

  function MatchIssues(filePath: string, content: string, issueType: string, ms: seq<RegexMatch>, rating: Rating): (r: seq<Issue>)
    ensures |r| == |ms|
    ensures forall i :: 0 <= i < |r| ==> r[i] == MatchIssue(filePath, content, issueType, ms[i], rating)
  {
    if |ms| == 0 then []
    else MatchIssues(filePath, content, issueType, ms[..|ms| - 1], rating)
         + [MatchIssue(filePath, content, issueType, ms[|ms| - 1], rating)]
  }

  /** Every issue of every pattern of the table, in table order then match order. */
  function RegexIssues(filePath: string, content: string, table: seq<(string, nat)>,
                       matches: (nat, string) -> seq<RegexMatch>, rating: Rating): seq<Issue>
  {
    if |table| == 0 then []
    else
      var entry := table[|table| - 1];
      RegexIssues(filePath, content, table[..|table| - 1], matches, rating)
      + MatchIssues(filePath, content, entry.0, matches(entry.1, content), rating)
  }

  /** The total number of matches of the table's patterns. */
  function MatchCount(content: string, table: seq<(string, nat)>, matches: (nat, string) -> seq<RegexMatch>): nat {
    if |table| == 0 then 0
    else MatchCount(content, table[..|table| - 1], matches) + |matches(table[|table| - 1].1, content)|
  }

  /**
   * A regex stage reports exactly one issue per match, each carrying the
   * stage's rating, an existing line, and the upper-cased name of the
   * table entry that matched.
   */
  lemma {:induction false} RegexIssuesShape(filePath: string, content: string, table: seq<(string, nat)>,
                                            matches: (nat, string) -> seq<RegexMatch>, rating: Rating)
    ensures var r := RegexIssues(filePath, content, table, matches, rating);
            && |r| == MatchCount(content, table, matches)
            && forall x :: x in r ==>
                 && x.category == rating.category && x.severity == rating.severity
                 && x.confidence == rating.confidence && x.cwe == rating.cwe
                 && 1 <= x.line <= CountChar(content, '\n') + 1
                 && exists e :: e in table && x.issueType == UpperAscii(e.0)
  {
    if |table| > 0 {
      var init := table[..|table| - 1];
      var entry := table[|table| - 1];
      RegexIssuesShape(filePath, content, init, matches, rating);
      var here := MatchIssues(filePath, content, entry.0, matches(entry.1, content), rating);
      forall x | x in RegexIssues(filePath, content, table, matches, rating)
        ensures exists e :: e in table && x.issueType == UpperAscii(e.0)
      {
        if x in here {
          assert x.issueType == UpperAscii(entry.0);
        } else {
          assert x in RegexIssues(filePath, content, init, matches, rating);
          var e :| e in init && x.issueType == UpperAscii(e.0);
          assert e in table;
        }
      }
    }
  }

  /** The three nested loops of _security_analysis and _performance_analysis. */
  method RegexAnalysis(filePath: string, content: string, table: seq<(string, nat)>,
                       matches: (nat, string) -> seq<RegexMatch>, rating: Rating)
    returns (issues: seq<Issue>)
    ensures issues == RegexIssues(filePath, content, table, matches, rating)
  {
    issues := [];
    var t := 0;
    while t < |table|
      invariant 0 <= t <= |table|
      invariant issues == RegexIssues(filePath, content, table[..t], matches, rating)
    {
      var (issueType, pattern) := table[t];
      var found := matches(pattern, content);
      ghost var before := issues;
      var k := 0;
      while k < |found|
        invariant 0 <= k <= |found|
        invariant issues == before + MatchIssues(filePath, content, issueType, found[..k], rating)
      {
        assert found[..k + 1][..k] == found[..k];
        issues := issues + [MatchIssue(filePath, content, issueType, found[k], rating)];
        k := k + 1;
      }
      assert found[..k] == found;
      assert table[..t + 1][..t] == table[..t];
      t := t + 1;
    }
    assert table[..t] == table;
  }

  /** _security_analysis: CRITICAL security issues, cwe CWE-120 and CWE-134 whatever the type. */
  method SecurityAnalysis(filePath: string, content: string, m: Matchers)
    returns (issues: seq<Issue>, metrics: FileMetrics)
    ensures issues == RegexIssues(filePath, content, SecurityTable, m.security, SecurityRating)
    ensures metrics == ZeroMetrics
  {
    issues := RegexAnalysis(filePath, content, SecurityTable, m.security, SecurityRating);
    metrics := ZeroMetrics;
  }

  /** _performance_analysis: MEDIUM performance issues with no CWE. */
  method PerformanceAnalysis(filePath: string, content: string, m: Matchers)
    returns (issues: seq<Issue>, metrics: FileMetrics)
    ensures issues == RegexIssues(filePath, content, PerformanceTable, m.performance, PerformanceRating)
    ensures metrics == ZeroMetrics
  {
    issues := RegexAnalysis(filePath, content, PerformanceTable, m.performance, PerformanceRating);
    metrics := ZeroMetrics;
  }

  // ---------------------------------------------------------------------
  // Fault isolation: the stage loop of analyze_file_advanced

  /** The issues of a stage that returned; nothing for one that raised. */
  function IssuesOf(o: Outcome): seq<Issue> {
    if o.Returned? then o.issues else []
  }

  /** The issues accumulated over the stage outcomes, in stage order. */
  function CollectedIssues(outcomes: seq<Outcome>): seq<Issue> {
    if |outcomes| == 0 then []
    else CollectedIssues(outcomes[..|outcomes| - 1]) + IssuesOf(outcomes[|outcomes| - 1])
  }

  /** The metrics accumulated over the stage outcomes: each returning stage's metrics merged in turn. */
  function MergedMetrics(outcomes: seq<Outcome>): FileMetrics {
    if |outcomes| == 0 then ZeroMetrics
    else
      var metrics := MergedMetrics(outcomes[..|outcomes| - 1]);
      match outcomes[|outcomes| - 1]
      case Raised => metrics
      case Returned(_, m) => Merge(metrics, m)
  }

  /**
   * The loop over the stages: extend the issue list and merge the metrics
   * of each stage that returned, skip a stage that raised.
   */
  method RunStages(outcomes: seq<Outcome>) returns (issues: seq<Issue>, metrics: FileMetrics)
    ensures issues == CollectedIssues(outcomes)
    ensures metrics == MergedMetrics(outcomes)
  {
    issues, metrics := [], ZeroMetrics;
    var k := 0;
    while k < |outcomes|
      invariant 0 <= k <= |outcomes|
      invariant issues == CollectedIssues(outcomes[..k])
      invariant metrics == MergedMetrics(outcomes[..k])
    {
      assert outcomes[..k + 1][..k] == outcomes[..k];
      match outcomes[k] {
        case Raised =>
        case Returned(methodIssues, methodMetrics) =>
          issues := issues + methodIssues;
          var previous := metrics;
          metrics := MergeMetrics(previous, methodMetrics);
          MergeUnique(previous, methodMetrics, metrics);
      }
      k := k + 1;
    }
    assert outcomes[..k] == outcomes;
  }

  /** A stage that raises is as if it were absent: the others' issues and metrics are unaffected. */
  lemma {:induction false} RaisedContributesNothing(before: seq<Outcome>, after: seq<Outcome>)
    ensures CollectedIssues(before + [Raised] + after) == CollectedIssues(before + after)
    ensures MergedMetrics(before + [Raised] + after) == MergedMetrics(before + after)
    decreases |after|
  {
    if |after| == 0 {
      assert before + [Raised] + after == before + [Raised];
      assert (before + [Raised])[..|before|] == before;
      assert before + after == before;
    } else {
      var init := after[..|after| - 1];
      RaisedContributesNothing(before, init);
      assert (before + [Raised] + after)[..|before + [Raised] + after| - 1] == before + [Raised] + init;
      assert (before + after)[..|before + after| - 1] == before + init;
    }
  }

  /** The stage raised or returned all-zero metrics. */
  predicate QuietMetrics(o: Outcome) {
    o.Returned? ==> o.metrics == ZeroMetrics
  }

  /** Stages that all return zero metrics leave the file's metrics all zero. */
  lemma {:induction false} MergedZeroMetrics(outcomes: seq<Outcome>)
    requires forall k :: 0 <= k < |outcomes| ==> QuietMetrics(outcomes[k])
    ensures MergedMetrics(outcomes) == ZeroMetrics
  {
    if |outcomes| > 0 {
      MergedZeroMetrics(outcomes[..|outcomes| - 1]);
      MergeZeroIdentity(ZeroMetrics);
    }
  }

  /** One more stage appends its issues if it returned. */
  lemma CollectedSnoc(outcomes: seq<Outcome>, o: Outcome)
    ensures CollectedIssues(outcomes + [o]) == CollectedIssues(outcomes) + IssuesOf(o)
  {
    assert (outcomes + [o])[..|outcomes|] == outcomes;
  }

  /** What each stage of one file's text produces. */
  function PatternStage(filePath: string, content: string, m: Matchers): Outcome {
    Returned(PatternIssues(filePath, content, PatternResults(content, m)), ZeroMetrics)
  }

  function LeakStage(filePath: string, content: string, m: Matchers): Outcome {
    Returned(LeakIssues(filePath, Flow(NumberedLines(content), m.lines)), ZeroMetrics)
  }

  function SemanticStage(filePath: string, content: string, m: Matchers): Outcome {
    if m.declarationFound(content) then Raised
    else Returned(ComplexityIssues(filePath, m.functionComplexities(content)), ZeroMetrics)
  }

  /** The metrics stage without its optional backend: no issues, all-zero metrics. */
  const MetricsStage: Outcome := Returned([], ZeroMetrics)

  function SecurityStage(filePath: string, content: string, m: Matchers): Outcome {
    Returned(RegexIssues(filePath, content, SecurityTable, m.security, SecurityRating), ZeroMetrics)
  }

  function PerformanceStage(filePath: string, content: string, m: Matchers): Outcome {
    Returned(RegexIssues(filePath, content, PerformanceTable, m.performance, PerformanceRating), ZeroMetrics)
  }

  /** The six stage outcomes, in the order analyze_file_advanced runs them. */
  function StageOutcomes(filePath: string, content: string, m: Matchers): seq<Outcome> {
    [] + [PatternStage(filePath, content, m)] + [LeakStage(filePath, content, m)] + [SemanticStage(filePath, content, m)]
    + [MetricsStage] + [SecurityStage(filePath, content, m)] + [PerformanceStage(filePath, content, m)]
  }

  /** The analysis of one file's text. */
  function Analysis(filePath: string, content: string, m: Matchers): (seq<Issue>, FileMetrics) {
    var outcomes := StageOutcomes(filePath, content, m);
    (CollectedIssues(outcomes), MergedMetrics(outcomes))
  }

  /**
   * Without the optional metrics backend every stage returns an all-zero
   * FileMetrics, so a file's metrics are all zero; its issues are the
   * stages' issues in stage order, the complexity issues missing whenever
   * the file has a declaration.
   */
  lemma AnalysisResult(filePath: string, content: string, m: Matchers)
    ensures Analysis(filePath, content, m).1 == ZeroMetrics
    ensures Analysis(filePath, content, m).0 ==
              IssuesOf(PatternStage(filePath, content, m)) + IssuesOf(LeakStage(filePath, content, m))
              + IssuesOf(SemanticStage(filePath, content, m)) + IssuesOf(MetricsStage)
              + IssuesOf(SecurityStage(filePath, content, m)) + IssuesOf(PerformanceStage(filePath, content, m))
    ensures m.declarationFound(content) ==> IssuesOf(SemanticStage(filePath, content, m)) == []
    ensures IssuesOf(MetricsStage) == []
  {
    var o0, o1, o2 := PatternStage(filePath, content, m), LeakStage(filePath, content, m), SemanticStage(filePath, content, m);
    var o4, o5 := SecurityStage(filePath, content, m), PerformanceStage(filePath, content, m);
    CollectedSix(o0, o1, o2, MetricsStage, o4, o5);
    QuietSix(o0, o1, o2, MetricsStage, o4, o5);
  }

  lemma CollectedSix(o0: Outcome, o1: Outcome, o2: Outcome, o3: Outcome, o4: Outcome, o5: Outcome)
    ensures CollectedIssues([] + [o0] + [o1] + [o2] + [o3] + [o4] + [o5]) ==
              IssuesOf(o0) + IssuesOf(o1) + IssuesOf(o2) + IssuesOf(o3) + IssuesOf(o4) + IssuesOf(o5)
  {
    var p1 := [] + [o0];
    var p2 := p1 + [o1];
    var p3 := p2 + [o2];
    var p4 := p3 + [o3];
    var p5 := p4 + [o4];
    CollectedSnoc([], o0);
    CollectedSnoc(p1, o1);
    CollectedSnoc(p2, o2);
    CollectedSnoc(p3, o3);
    CollectedSnoc(p4, o4);
    CollectedSnoc(p5, o5);
  }

  lemma QuietSix(o0: Outcome, o1: Outcome, o2: Outcome, o3: Outcome, o4: Outcome, o5: Outcome)
    requires QuietMetrics(o0) && QuietMetrics(o1) && QuietMetrics(o2)
    requires QuietMetrics(o3) && QuietMetrics(o4) && QuietMetrics(o5)
    ensures MergedMetrics([] + [o0] + [o1] + [o2] + [o3] + [o4] + [o5]) == ZeroMetrics
  {
    MergedZeroMetrics([] + [o0] + [o1] + [o2] + [o3] + [o4] + [o5]);
  }

  /** Running the six stages of one file's text, each isolated from the others' failures. */
  method AnalyzeContent(filePath: string, content: string, m: Matchers)
    returns (issues: seq<Issue>, metrics: FileMetrics)
    ensures (issues, metrics) == Analysis(filePath, content, m)
  {
    var patternIssues, patternMetrics := PatternBasedAnalysis(filePath, content, m);
    var leakIssues, leakMetrics := ControlFlowAnalysis(filePath, content, m.lines);
    var semantic := SemanticAnalysis(filePath, content, m);
    var securityIssues, securityMetrics := SecurityAnalysis(filePath, content, m);
    var performanceIssues, performanceMetrics := PerformanceAnalysis(filePath, content, m);
    issues, metrics := RunStages(
      [] + [Returned(patternIssues, patternMetrics)] + [Returned(leakIssues, leakMetrics)] + [semantic]
      + [MetricsStage] + [Returned(securityIssues, securityMetrics)] + [Returned(performanceIssues, performanceMetrics)]);
  }

  /** The analyser's result cache, keyed by the file's content hash. */
  class AdvancedMemoryAnalyzer {
    var cache: map<string, (seq<Issue>, FileMetrics)>
    const forceReanalyze: bool

    constructor (forceReanalyze: bool)
      ensures cache == map[] && this.forceReanalyze == forceReanalyze
    {
      cache := map[];
      this.forceReanalyze := forceReanalyze;
    }

    /**
     * analyze_file_advanced. `fileHash` is the file's content hash and
     * `content` the decoded text, None when reading it fails.
     * - A cache hit, unless re-analysis is forced, returns the stored pair
     *   and leaves the cache alone. The stored pair is returned as it is,
     *   so a second file with the same content gets the first file's
     *   issues, file path included.
     * - Otherwise a failed read returns no issues and zero metrics and
     *   leaves the cache alone.
     * - Otherwise the file is analysed and the result stored under its
     *   hash, also when the run was forced.
     */
    method AnalyzeFileAdvanced(filePath: string, fileHash: string, content: Option<string>, m: Matchers)
      returns (issues: seq<Issue>, metrics: FileMetrics)
      modifies this
      ensures old(fileHash in cache) && !forceReanalyze ==>
                (issues, metrics) == old(cache[fileHash]) && cache == old(cache)
      ensures !(old(fileHash in cache) && !forceReanalyze) && content.None? ==>
                issues == [] && metrics == ZeroMetrics && cache == old(cache)
      ensures !(old(fileHash in cache) && !forceReanalyze) && content.Some? ==>
                (issues, metrics) == Analysis(filePath, content.value, m) &&
                cache == old(cache)[fileHash := (issues, metrics)]
    {
      if fileHash in cache && !forceReanalyze {
        issues, metrics := cache[fileHash].0, cache[fileHash].1;
        return;
      }
      if content.None? {
        return [], ZeroMetrics;
      }
      issues, metrics := AnalyzeContent(filePath, content.value, m);
      cache := cache[fileHash := (issues, metrics)];
    }
  }
}
