/**
 * The report builders of AdvancedMemoryAnalyzer: the per-severity,
 * per-category and per-type issue counts of generate_comprehensive_report
 * and the recommendation rules of _generate_recommendations.
 */
module Report {
  import opened AnalyzerTypes

  /** The number of issues whose key is `x`. */
  function CountWhere<K(==)>(issues: seq<Issue>, key: Issue -> K, x: K): (n: nat)
    ensures n <= |issues|
  {
    if |issues| == 0 then 0
    else CountWhere(issues[..|issues| - 1], key, x) + (if key(issues[|issues| - 1]) == x then 1 else 0)
  }

  /** A key is counted exactly when some issue has it. */
  lemma {:induction false} CountWherePositive<K>(issues: seq<Issue>, key: Issue -> K, x: K)
    ensures CountWhere(issues, key, x) > 0 <==> exists i :: 0 <= i < |issues| && key(issues[i]) == x
  {
    if |issues| > 0 {
      var init := issues[..|issues| - 1];
      CountWherePositive(init, key, x);
      if exists i :: 0 <= i < |issues| && key(issues[i]) == x {
        var i :| 0 <= i < |issues| && key(issues[i]) == x;
        if i < |issues| - 1 {
          assert init[i] == issues[i];
        }
      }
      if exists i :: 0 <= i < |init| && key(init[i]) == x {
        var i :| 0 <= i < |init| && key(init[i]) == x;
        assert issues[i] == init[i];
      }
    }
  }

  /** The sum of the counts of the keys `ks`. */
  function SumCounts<K(==)>(issues: seq<Issue>, key: Issue -> K, ks: seq<K>): nat {
    if |ks| == 0 then 0 else SumCounts(issues, key, ks[..|ks| - 1]) + CountWhere(issues, key, ks[|ks| - 1])
  }

  /** One more issue adds one to the sum when its key is among `ks`. */
  lemma {:induction false} SumCountsSnoc<K>(issues: seq<Issue>, e: Issue, key: Issue -> K, ks: seq<K>)
    requires forall i, j :: 0 <= i < j < |ks| ==> ks[i] != ks[j]
    ensures SumCounts(issues + [e], key, ks) == SumCounts(issues, key, ks) + (if key(e) in ks then 1 else 0)
  {
    assert (issues + [e])[..|issues|] == issues;
    if |ks| > 0 {
      var init := ks[..|ks| - 1];
      SumCountsSnoc(issues, e, key, init);
      assert ks == init + [ks[|ks| - 1]];
      assert ks[|ks| - 1] !in init;
    }
  }

  /**
   * Counting by a key whose every value is listed (once) in `ks`: the
   * counts add up to the number of issues.
   */
  lemma {:induction false} SumCountsTotal<K>(issues: seq<Issue>, key: Issue -> K, ks: seq<K>)
    requires forall i, j :: 0 <= i < j < |ks| ==> ks[i] != ks[j]
    requires forall i :: 0 <= i < |issues| ==> key(issues[i]) in ks
    ensures SumCounts(issues, key, ks) == |issues|
  {
    if |issues| == 0 {
      SumCountsEmpty(key, ks);
    } else {
      var init := issues[..|issues| - 1];
      SumCountsTotal(init, key, ks);
      assert issues == init + [issues[|issues| - 1]];
      SumCountsSnoc(init, issues[|issues| - 1], key, ks);
    }
  }

  lemma {:induction false} SumCountsEmpty<K>(key: Issue -> K, ks: seq<K>)
    ensures SumCounts([], key, ks) == 0
  {
    if |ks| > 0 {
      SumCountsEmpty(key, ks[..|ks| - 1]);
    }
  }

  function SeverityOf(i: Issue): Severity { i.severity }
  function CategoryOf(i: Issue): Category { i.category }
  function TypeOf(i: Issue): string { i.issueType }

  /** A defaultdict read: the stored count, 0 for a missing key. */
  function Lookup<K>(counts: map<K, nat>, x: K): nat {
    if x in counts then counts[x] else 0
  }

  /** One counting step: the issue's own key goes up by one, every other key stays. */
  lemma CountStep<K>(issues: seq<Issue>, k: nat, key: Issue -> K, counts: map<K, nat>, next: map<K, nat>)
    requires k < |issues|
    requires forall x :: Lookup(counts, x) == CountWhere(issues[..k], key, x)
    requires next == counts[key(issues[k]) := Lookup(counts, key(issues[k])) + 1]
    ensures forall x :: Lookup(next, x) == CountWhere(issues[..k + 1], key, x)
  {
    assert issues[..k + 1][..k] == issues[..k];
  }

  /**
   * The counting loop of generate_comprehensive_report: three
   * defaultdicts, keyed by severity, category and issue type. A key is
   * present exactly when some issue carries it, and holds the number of
   * issues that do.
   */
  method CountIssues(issues: seq<Issue>)
    returns (bySeverity: map<Severity, nat>, byCategory: map<Category, nat>, byType: map<string, nat>)
    ensures forall s :: Lookup(bySeverity, s) == CountWhere(issues, SeverityOf, s)
    ensures forall c :: Lookup(byCategory, c) == CountWhere(issues, CategoryOf, c)
    ensures forall t :: Lookup(byType, t) == CountWhere(issues, TypeOf, t)
    ensures forall s :: s in bySeverity <==> exists i :: 0 <= i < |issues| && issues[i].severity == s
    ensures forall c :: c in byCategory <==> exists i :: 0 <= i < |issues| && issues[i].category == c
    ensures forall t :: t in byType <==> exists i :: 0 <= i < |issues| && issues[i].issueType == t
  {
    bySeverity, byCategory, byType := map[], map[], map[];
    var k := 0;
    while k < |issues|
      invariant 0 <= k <= |issues|
      invariant forall s :: Lookup(bySeverity, s) == CountWhere(issues[..k], SeverityOf, s)
      invariant forall c :: Lookup(byCategory, c) == CountWhere(issues[..k], CategoryOf, c)
      invariant forall t :: Lookup(byType, t) == CountWhere(issues[..k], TypeOf, t)
      invariant forall s :: s in bySeverity ==> bySeverity[s] > 0
      invariant forall c :: c in byCategory ==> byCategory[c] > 0
      invariant forall t :: t in byType ==> byType[t] > 0
    {
      var issue := issues[k];
      var severities := bySeverity[issue.severity := Lookup(bySeverity, issue.severity) + 1];
      var categories := byCategory[issue.category := Lookup(byCategory, issue.category) + 1];
      var types := byType[issue.issueType := Lookup(byType, issue.issueType) + 1];
      CountStep(issues, k, SeverityOf, bySeverity, severities);
      CountStep(issues, k, CategoryOf, byCategory, categories);
      CountStep(issues, k, TypeOf, byType, types);
      bySeverity, byCategory, byType := severities, categories, types;
      k := k + 1;
    }
    assert issues[..k] == issues;
    forall s ensures s in bySeverity <==> exists i :: 0 <= i < |issues| && issues[i].severity == s {
      CountWherePositive(issues, SeverityOf, s);
    }
    forall c ensures c in byCategory <==> exists i :: 0 <= i < |issues| && issues[i].category == c {
      CountWherePositive(issues, CategoryOf, c);
    }
    forall t ensures t in byType <==> exists i :: 0 <= i < |issues| && issues[i].issueType == t {
      CountWherePositive(issues, TypeOf, t);
    }
  }

  /** The per-severity counts, read over every severity, add up to the number of issues. */
  lemma SeverityCountsTotal(issues: seq<Issue>)
    ensures SumCounts(issues, SeverityOf, AllSeverities) == |issues|
  {
    forall i | 0 <= i < |issues| ensures SeverityOf(issues[i]) in AllSeverities {
      match issues[i].severity
      case Critical => assert AllSeverities[0] == Critical;
      case High => assert AllSeverities[1] == High;
      case Medium => assert AllSeverities[2] == Medium;
      case Low => assert AllSeverities[3] == Low;
      case Info => assert AllSeverities[4] == Info;
    }
    SumCountsTotal(issues, SeverityOf, AllSeverities);
  }

  /** The per-category counts, read over every category, add up to the number of issues. */
  lemma CategoryCountsTotal(issues: seq<Issue>)
    ensures SumCounts(issues, CategoryOf, AllCategories) == |issues|
  {
    forall i | 0 <= i < |issues| ensures CategoryOf(issues[i]) in AllCategories {
      match issues[i].category
      case MemorySafety => assert AllCategories[0] == MemorySafety;
      case Security => assert AllCategories[1] == Security;
      case Performance => assert AllCategories[2] == Performance;
      case CodeQuality => assert AllCategories[3] == CodeQuality;
      case Concurrency => assert AllCategories[4] == Concurrency;
    }
    SumCountsTotal(issues, CategoryOf, AllCategories);
  }

  /** The per-type counts, read over any duplicate-free list holding every issue type, add up to the number of issues. */
  lemma TypeCountsTotal(issues: seq<Issue>, types: seq<string>)
    requires forall i, j :: 0 <= i < j < |types| ==> types[i] != types[j]
    requires forall i :: 0 <= i < |issues| ==> issues[i].issueType in types
    ensures SumCounts(issues, TypeOf, types) == |issues|
  {
    SumCountsTotal(issues, TypeOf, types);
  }

  // ---------------------------------------------------------------------
  // Recommendations

  /** One recommendation; its description states `count`. */
  datatype Recommendation = Recommendation(priority: string, category: string, count: nat)

  /** The fixed order the rules are tried in. */
  function AreaRank(category: string): nat {
    if category == "SECURITY" then 0 else if category == "MEMORY" then 1 else 2
  }

  function CriticalCount(issues: seq<Issue>): nat {
    CountWhere(issues, SeverityOf, Critical)
  }

  function MemoryCount(issues: seq<Issue>): nat {
    CountWhere(issues, CategoryOf, MemorySafety)
  }

  /** The number of files whose complexity exceeds 20. */
  function ComplexFileCount(metrics: map<string, FileMetrics>): nat {
    |set f | f in metrics && metrics[f].complexity > 20.0|
  }

  function SecurityRecommendation(issues: seq<Issue>): Recommendation {
    Recommendation("HIGH", "SECURITY", CriticalCount(issues))
  }

  function MemoryRecommendation(issues: seq<Issue>): Recommendation {
    Recommendation("HIGH", "MEMORY", MemoryCount(issues))
  }

  function MaintainabilityRecommendation(metrics: map<string, FileMetrics>): Recommendation {
    Recommendation("MEDIUM", "MAINTAINABILITY", ComplexFileCount(metrics))
  }

  /**
   * _generate_recommendations: at most one recommendation per rule, in the
   * order SECURITY, MEMORY, MAINTAINABILITY; each present exactly when its
   * condition holds (some CRITICAL issue, some memory-safety issue, some
   * file of complexity above 20) and carrying the matching count.
   */
  method GenerateRecommendations(issues: seq<Issue>, metrics: map<string, FileMetrics>)
    returns (recommendations: seq<Recommendation>)
    ensures |recommendations| <= 3
    ensures forall i, j :: 0 <= i < j < |recommendations| ==>
              AreaRank(recommendations[i].category) < AreaRank(recommendations[j].category)
    ensures forall r :: r in recommendations ==>
              r in {SecurityRecommendation(issues), MemoryRecommendation(issues), MaintainabilityRecommendation(metrics)}
    ensures SecurityRecommendation(issues) in recommendations <==>
              exists i :: 0 <= i < |issues| && issues[i].severity == Critical
    ensures MemoryRecommendation(issues) in recommendations <==>
              exists i :: 0 <= i < |issues| && issues[i].category == MemorySafety
    ensures MaintainabilityRecommendation(metrics) in recommendations <==>
              exists f :: f in metrics && metrics[f].complexity > 20.0
  {
    CountWherePositive(issues, SeverityOf, Critical);
    CountWherePositive(issues, CategoryOf, MemorySafety);
    recommendations := [];
    var criticalIssues := CriticalCount(issues);
    if criticalIssues > 0 {
      recommendations := recommendations + [Recommendation("HIGH", "SECURITY", criticalIssues)];
    }
    var memoryIssues := MemoryCount(issues);
    if memoryIssues > 0 {
      recommendations := recommendations + [Recommendation("HIGH", "MEMORY", memoryIssues)];
    }
    var highComplexFiles := set f | f in metrics && metrics[f].complexity > 20.0;
    if |highComplexFiles| > 0 {
      recommendations := recommendations + [Recommendation("MEDIUM", "MAINTAINABILITY", |highComplexFiles|)];
    }
    if exists f :: f in metrics && metrics[f].complexity > 20.0 {
      var f :| f in metrics && metrics[f].complexity > 20.0;
      assert f in highComplexFiles;
    }
  }

  /** Files whose metrics are all zero never trigger the MAINTAINABILITY rule. */
  lemma ZeroMetricsNoMaintainability(metrics: map<string, FileMetrics>)
    requires forall f :: f in metrics ==> metrics[f] == ZeroMetrics
    ensures ComplexFileCount(metrics) == 0
  {
    assert (set f | f in metrics && metrics[f].complexity > 20.0) == {};
  }
}
