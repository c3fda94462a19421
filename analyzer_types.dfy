/**
 * The analyser's shared data model: the severity and category enums, the
 * reported issue record and the per-file metrics accumulator with its
 * field-wise merge rule.
 */
module AnalyzerTypes {

  /** IssueSeverity; the report counts and tests severities by name, never by their ordinal. */
  datatype Severity = Critical | High | Medium | Low | Info

  const AllSeverities: seq<Severity> := [Critical, High, Medium, Low, Info]

  /** AnalysisCategory. */
  datatype Category = MemorySafety | Security | Performance | CodeQuality | Concurrency

  const AllCategories: seq<Category> := [MemorySafety, Security, Performance, CodeQuality, Concurrency]

  /**
   * CodeIssue. The time-based id, the prose description, the suggestion
   * list and the free-form metric/context attachments are not modelled.
   */
  datatype Issue = Issue(
    filePath: string,
    line: int,
    column: int,
    issueType: string,
    category: Category,
    severity: Severity,
    snippet: string,
    confidence: real,
    cwe: seq<string>)

  /** The seven attributes of FileMetrics, in the order the merge visits them. */
  datatype Attr = Complexity | Maintainability | LinesOfCode | CommentRatio
                | FunctionCount | IssueDensity | MemoryRiskScore

  const Attrs: seq<Attr> :=
    [Complexity, Maintainability, LinesOfCode, CommentRatio, FunctionCount, IssueDensity, MemoryRiskScore]

  /**
   * FileMetrics. Python floats are modelled as reals; lines_of_code and
   * function_count hold integral values.
   */
  datatype FileMetrics = FileMetrics(
    complexity: real,
    maintainability: real,
    linesOfCode: real,
    commentRatio: real,
    functionCount: real,
    issueDensity: real,
    memoryRiskScore: real)
  {
    /** getattr(metrics, attr). */
    function Get(a: Attr): real {
      match a
      case Complexity => complexity
      case Maintainability => maintainability
      case LinesOfCode => linesOfCode
      case CommentRatio => commentRatio
      case FunctionCount => functionCount
      case IssueDensity => issueDensity
      case MemoryRiskScore => memoryRiskScore
    }

    /** setattr(metrics, attr, v): only `a` changes. */
    function With(a: Attr, v: real): (m: FileMetrics)
      ensures m.Get(a) == v
      ensures forall b :: b != a ==> m.Get(b) == Get(b)
    {
      match a
      case Complexity => this.(complexity := v)
      case Maintainability => this.(maintainability := v)
      case LinesOfCode => this.(linesOfCode := v)
      case CommentRatio => this.(commentRatio := v)
      case FunctionCount => this.(functionCount := v)
      case IssueDensity => this.(issueDensity := v)
      case MemoryRiskScore => this.(memoryRiskScore := v)
    }
  }

  /** The attribute list names every attribute. */
  lemma AttrsComplete(a: Attr)
    ensures a in Attrs
  {
    match a
    case Complexity => assert Attrs[0] == a;
    case Maintainability => assert Attrs[1] == a;
    case LinesOfCode => assert Attrs[2] == a;
    case CommentRatio => assert Attrs[3] == a;
    case FunctionCount => assert Attrs[4] == a;
    case IssueDensity => assert Attrs[5] == a;
    case MemoryRiskScore => assert Attrs[6] == a;
  }

  /** FileMetrics(): every field zero. */
  const ZeroMetrics: FileMetrics := FileMetrics(0.0, 0.0, 0.0, 0.0, 0.0, 0.0, 0.0)

  lemma ZeroMetricsAllZero()
    ensures forall a :: ZeroMetrics.Get(a) == 0.0
  {
  }

  /** Two metrics values agreeing on every attribute are equal. */
  lemma MetricsExt(m: FileMetrics, n: FileMetrics)
    requires forall a :: m.Get(a) == n.Get(a)
    ensures m == n
  {
    assert m.Get(Complexity) == n.Get(Complexity);
    assert m.Get(Maintainability) == n.Get(Maintainability);
    assert m.Get(LinesOfCode) == n.Get(LinesOfCode);
    assert m.Get(CommentRatio) == n.Get(CommentRatio);
    assert m.Get(FunctionCount) == n.Get(FunctionCount);
    assert m.Get(IssueDensity) == n.Get(IssueDensity);
    assert m.Get(MemoryRiskScore) == n.Get(MemoryRiskScore);
  }

  /** One attribute of a merge: the source's positive value wins, else the target's stays. */
  function MergedAttr(target: FileMetrics, source: FileMetrics, a: Attr): real {
    if source.Get(a) > 0.0 then source.Get(a) else target.Get(a)
  }

  /** Every attribute of `m` is the merge of that attribute. */
  predicate IsMerge(target: FileMetrics, source: FileMetrics, m: FileMetrics) {
    forall a :: m.Get(a) == MergedAttr(target, source, a)
  }

  /**
   * _merge_metrics: visit the seven attributes in order and overwrite the
   * target's value with the source's whenever the source's is positive.
   */
  method MergeMetrics(target: FileMetrics, source: FileMetrics) returns (merged: FileMetrics)
    ensures IsMerge(target, source, merged)
  {
    merged := target;
    var k := 0;
    while k < |Attrs|
      invariant 0 <= k <= |Attrs|
      invariant forall j :: 0 <= j < k ==> merged.Get(Attrs[j]) == MergedAttr(target, source, Attrs[j])
      invariant forall j :: k <= j < |Attrs| ==> merged.Get(Attrs[j]) == target.Get(Attrs[j])
    {
      var attr := Attrs[k];
      if source.Get(attr) > 0.0 {
        merged := merged.With(attr, source.Get(attr));
      }
      k := k + 1;
    }
    forall a ensures merged.Get(a) == MergedAttr(target, source, a) {
      AttrsComplete(a);
    }
  }

  /** The merged value, as a function for the specifications that need one. */
  function Merge(target: FileMetrics, source: FileMetrics): (m: FileMetrics)
    ensures IsMerge(target, source, m)
  {
    FileMetrics(
      MergedAttr(target, source, Complexity),
      MergedAttr(target, source, Maintainability),
      MergedAttr(target, source, LinesOfCode),
      MergedAttr(target, source, CommentRatio),
      MergedAttr(target, source, FunctionCount),
      MergedAttr(target, source, IssueDensity),
      MergedAttr(target, source, MemoryRiskScore))
  }

  /** The merge rule determines the result uniquely. */
  lemma MergeUnique(target: FileMetrics, source: FileMetrics, m: FileMetrics)
    requires IsMerge(target, source, m)
    ensures m == Merge(target, source)
  {
    MetricsExt(m, Merge(target, source));
  }

  /** Each merged attribute is either the target's or the source's value: values are never summed. */
  lemma MergeNeverCombines(target: FileMetrics, source: FileMetrics, a: Attr)
    ensures Merge(target, source).Get(a) == source.Get(a) || Merge(target, source).Get(a) == target.Get(a)
    ensures Merge(target, source).Get(a) != target.Get(a) ==> source.Get(a) > 0.0
  {
  }

  /** Merging an all-zero FileMetrics leaves the target unchanged. */
  lemma MergeZeroIdentity(target: FileMetrics)
    ensures Merge(target, ZeroMetrics) == target
  {
    MetricsExt(Merge(target, ZeroMetrics), target);
  }

  /** Merging the same source twice equals merging it once. */
  lemma MergeIdempotent(target: FileMetrics, source: FileMetrics)
    ensures Merge(Merge(target, source), source) == Merge(target, source)
  {
    MetricsExt(Merge(Merge(target, source), source), Merge(target, source));
  }

  /** Last writer wins: a later stage's positive value overrides an earlier one's. */
  lemma MergeLastWriterWins(target: FileMetrics, first: FileMetrics, second: FileMetrics, a: Attr)
    ensures Merge(Merge(target, first), second).Get(a) ==
            if second.Get(a) > 0.0 then second.Get(a)
            else if first.Get(a) > 0.0 then first.Get(a)
            else target.Get(a)
  {
  }
}
