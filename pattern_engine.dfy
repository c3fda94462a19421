/**
 * AdvancedPatternEngine: the weighted rule table, the enumeration of
 * rule matches into candidates, and the weight-adjust-and-filter pass.
 * The regular expressions themselves are not interpreted: a rule's
 * matches on a text are supplied by an abstract matcher.
 */
module PatternEngine {
  import opened Text

  /** The categories of the rule table, in the table's (insertion) order. */
  datatype RuleKind = MemoryLeak | DoubleFree | UseAfterFree | BufferOverflow | NullPointer | ConcurrencyIssues {
    /** The category key of the rule table ('memory_leak', ...). */
    function Name(): string {
      match this
      case MemoryLeak => "memory_leak"
      case DoubleFree => "double_free"
      case UseAfterFree => "use_after_free"
      case BufferOverflow => "buffer_overflow"
      case NullPointer => "null_pointer"
      case ConcurrencyIssues => "concurrency_issues"
    }
  }

  /** One pattern entry: its category, its position in the table and its base weight. */
  datatype Rule = Rule(kind: RuleKind, id: nat, weight: real)

  /** The pattern table, in dictionary order; `id` identifies the (uninterpreted) regex. */
  const RuleTable: seq<Rule> := [
    Rule(MemoryLeak, 0, 0.9),
    Rule(MemoryLeak, 1, 0.8),
    Rule(DoubleFree, 2, 0.95),
    Rule(UseAfterFree, 3, 0.97),
    Rule(BufferOverflow, 4, 0.85),
    Rule(BufferOverflow, 5, 0.7),
    Rule(NullPointer, 6, 0.96),
    Rule(ConcurrencyIssues, 7, 0.75),
    Rule(ConcurrencyIssues, 8, 0.8)
  ]

  /** One regex match: the matched text and its span in the file. */
  datatype RegexMatch = RegexMatch(text: string, start: nat, end: nat)

  /** A candidate finding before filtering. The rule's context flags are not modelled. */
  datatype Candidate = Candidate(kind: RuleKind, matchText: string, start: nat, end: nat, weight: real)

  /** The precomputed file signals the heuristics consult. */
  datatype FileContext = FileContext(lineCount: nat, highComplexity: bool)

  /** Every candidate for `rules`, rule by rule and, within a rule, in match order. */
  function Candidates(rules: seq<Rule>, code: string, matches: (nat, string) -> seq<RegexMatch>): (r: seq<Candidate>)
    ensures forall c :: c in r ==> exists rule :: rule in rules && c.kind == rule.kind && c.weight == rule.weight
  {
    if |rules| == 0 then []
    else
      var rule := rules[0];
      var ms := matches(rule.id, code);
      var here := seq(|ms|, i requires 0 <= i < |ms| => Candidate(rule.kind, ms[i].text, ms[i].start, ms[i].end, rule.weight));
      var rest := Candidates(rules[1..], code, matches);
      assert forall c :: c in rest ==> exists r0 :: r0 in rules && c.kind == r0.kind && c.weight == r0.weight by {
        forall c | c in rest ensures exists r0 :: r0 in rules && c.kind == r0.kind && c.weight == r0.weight {
          var r1 :| r1 in rules[1..] && c.kind == r1.kind && c.weight == r1.weight;
          assert r1 in rules;
        }
      }
      here + rest
  }

  /** The free-in-destructor factor: 'free' in the match and '~' anywhere in the code. */
  function DestructorFactor(c: Candidate, code: string): real {
    if Contains(c.matchText, "free") && '~' in code then 0.5 else 1.0
  }

  /** The complexity factor. */
  function ComplexityFactor(ctx: FileContext): real {
    if ctx.highComplexity then 1.2 else 1.0
  }

  /** The candidate with its weight rescaled by both heuristics. There is no clamp to 1.0. */
  function Adjusted(c: Candidate, code: string, ctx: FileContext): (a: Candidate)
    ensures a.weight == c.weight * DestructorFactor(c, code) * ComplexityFactor(ctx)
    ensures a.(weight := c.weight) == c
  {
    c.(weight := c.weight * DestructorFactor(c, code) * ComplexityFactor(ctx))
  }

  /** The confidence floor. */
  predicate Survives(c: Candidate) {
    c.weight > 0.6
  }

  /** The adjusted candidates above the floor, in their original order. */
  function Filtered(issues: seq<Candidate>, code: string, ctx: FileContext): (r: seq<Candidate>)
    ensures |r| <= |issues|
    ensures forall i :: 0 <= i < |r| ==> Survives(r[i])
  {
    if |issues| == 0 then []
    else
      var rest := Filtered(issues[..|issues| - 1], code, ctx);
      var a := Adjusted(issues[|issues| - 1], code, ctx);
      if Survives(a) then rest + [a] else rest
  }

  /**
   * _apply_ml_heuristics: rescale each candidate's weight and keep those
   * whose adjusted weight exceeds 0.6.
   */
  method ApplyMlHeuristics(issues: seq<Candidate>, code: string, ctx: FileContext) returns (filtered: seq<Candidate>)
    ensures filtered == Filtered(issues, code, ctx)
    ensures forall i :: 0 <= i < |filtered| ==> filtered[i].weight > 0.6
  {
    filtered := [];
    var k := 0;
    while k < |issues|
      invariant 0 <= k <= |issues|
      invariant filtered == Filtered(issues[..k], code, ctx)
    {
      var issue := issues[k];
      var weight := issue.weight;
      if Contains(issue.matchText, "free") && '~' in code {
        weight := weight * 0.5;
      }
      if ctx.highComplexity {
        weight := weight * 1.2;
      }
      assert issues[..k + 1][..k] == issues[..k];
      if weight > 0.6 {
        filtered := filtered + [issue.(weight := weight)];
      }
      k := k + 1;
    }
    assert issues[..k] == issues;
  }

  /** A candidate is in the output exactly when it is the adjustment of an input that clears the floor. */
  lemma {:induction false} FilteredMembership(issues: seq<Candidate>, code: string, ctx: FileContext, x: Candidate)
    ensures x in Filtered(issues, code, ctx) <==>
            exists c :: c in issues && x == Adjusted(c, code, ctx) && Survives(x)
  {
    if |issues| > 0 {
      var init := issues[..|issues| - 1];
      FilteredMembership(init, code, ctx, x);
      assert issues == init + [issues[|issues| - 1]];
      if exists c :: c in issues && x == Adjusted(c, code, ctx) && Survives(x) {
        var c :| c in issues && x == Adjusted(c, code, ctx) && Survives(x);
        if c != issues[|issues| - 1] {
          assert c in init;
        }
      }
    }
  }

  /** Filtering works candidate by candidate: it distributes over concatenation. */
  lemma {:induction false} FilteredAppend(a: seq<Candidate>, b: seq<Candidate>, code: string, ctx: FileContext)
    ensures Filtered(a + b, code, ctx) == Filtered(a, code, ctx) + Filtered(b, code, ctx)
    decreases |b|
  {
    if |b| == 0 {
      assert a + b == a;
    } else {
      var b' := b[..|b| - 1];
      assert (a + b)[..|a + b| - 1] == a + b';
      FilteredAppend(a, b', code, ctx);
    }
  }

  /** The weight is not clamped: a 0.9 match in a complex file keeps weight 1.08. */
  lemma WeightCanExceedOne()
    ensures var c := Candidate(MemoryLeak, "p = malloc(4)", 0, 13, 0.9);
            Filtered([c], "int f() { p = malloc(4); }", FileContext(1, true)) == [c.(weight := 1.08)]
  {
    var c := Candidate(MemoryLeak, "p = malloc(4)", 0, 13, 0.9);
    ContainsFirstChar(c.matchText, "free");
    assert Filtered([c], "int f() { p = malloc(4); }", FileContext(1, true))
        == Filtered([], "int f() { p = malloc(4); }", FileContext(1, true)) + [c.(weight := 1.08)];
  }

  /**
   * With the shipped table no weight lies near the floor: a candidate of
   * any rule survives exactly when its weight was not halved.
   */
  lemma TableSurvivesIffNotHalved(rule: Rule, c: Candidate, code: string, ctx: FileContext)
    requires rule in RuleTable && c.weight == rule.weight
    ensures Survives(Adjusted(c, code, ctx)) <==> DestructorFactor(c, code) == 1.0
  {
  }

  /**
   * analyze_with_context: enumerate every rule's matches in table order,
   * then apply the heuristics.
   */
  method AnalyzeWithContext(code: string, ctx: FileContext, matches: (nat, string) -> seq<RegexMatch>)
    returns (r: seq<Candidate>)
    ensures r == Filtered(Candidates(RuleTable, code, matches), code, ctx)
    ensures forall i :: 0 <= i < |r| ==> r[i].weight > 0.6
  {
    r := ApplyMlHeuristics(Candidates(RuleTable, code, matches), code, ctx);
  }
}
