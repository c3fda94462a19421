/**
 * ControlFlowAnalyzer, second half: the per-variable allocation state
 * tracker (analyze_data_flow, _update_variable_states) and the leak rule
 * of the analyser's control-flow stage (_control_flow_analysis).
 *
 * The three regular expressions (assignment from an allocator, a
 * free/delete call, a use) are not interpreted: for a line they yield the
 * captured variable names in match order through an abstract matcher.
 */
module DataFlow {
  import opened Wrappers
  import opened ControlFlow
  import opened AnalyzerTypes

  /** The captured names of the three patterns on one instruction. */
  datatype LineMatchers = LineMatchers(
    allocs: string -> seq<string>,
    frees: string -> seq<string>,
    uses: string -> seq<string>)

  /**
   * One variable's record. `freeLine` is None while the record has no
   * 'free_line' key (a fresh allocation record has none).
   */
  datatype VarState = VarState(isAllocated: bool, freed: bool, allocationLine: nat, lastUsed: nat, freeLine: Option<nat>)

  /** The record an allocation on line `n` stores. */
  function Fresh(n: nat): VarState {
    VarState(true, false, n, n, None)
  }

  /**
   * The variable_states dictionary: its entries and its key order
   * (insertion order, which re-assigning an existing key keeps).
   */
  datatype States = States(order: seq<string>, entries: map<string, VarState>)

  const Empty := States([], map[])

  /** The key order lists every key exactly once. */
  ghost predicate Valid(st: States) {
    && (forall i, j :: 0 <= i < j < |st.order| ==> st.order[i] != st.order[j])
    && (forall x :: x in st.entries <==> x in st.order)
  }

  /** states[name] = v, keeping a present key's position. */
  function Insert(st: States, name: string, v: VarState): (r: States)
    ensures r.entries == st.entries[name := v]
    ensures Valid(st) ==> Valid(r)
  {
    if name in st.entries then States(st.order, st.entries[name := v])
    else States(st.order + [name], st.entries[name := v])
  }

  /** The allocation loop over `names`, in match order. */
  function AllocAll(st: States, names: seq<string>, n: nat): States {
    if |names| == 0 then st
    else Insert(AllocAll(st, names[..|names| - 1], n), names[|names| - 1], Fresh(n))
  }

  /** One free of a tracked name: mark it freed on line `n`. Untracked names are ignored. */
  function Free(st: States, name: string, n: nat): States {
    if name in st.entries then
      States(st.order, st.entries[name := st.entries[name].(freed := true, freeLine := Some(n))])
    else st
  }

  function FreeAll(st: States, names: seq<string>, n: nat): States {
    if |names| == 0 then st else Free(FreeAll(st, names[..|names| - 1], n), names[|names| - 1], n)
  }

  /** One use of a tracked name: record line `n` as its last use. */
  function Use(st: States, name: string, n: nat): States {
    if name in st.entries then States(st.order, st.entries[name := st.entries[name].(lastUsed := n)])
    else st
  }

  function UseAll(st: States, names: seq<string>, n: nat): States {
    if |names| == 0 then st else Use(UseAll(st, names[..|names| - 1], n), names[|names| - 1], n)
  }

  /** The effect of one instruction: allocations first, then frees, then uses. */
  function Update(st: States, text: string, n: nat, m: LineMatchers): States {
    UseAll(FreeAll(AllocAll(st, m.allocs(text), n), m.frees(text), n), m.uses(text), n)
  }

  /** The states after the given lines, in order, starting from an empty dictionary. */
  function Flow(lines: seq<NumberedLine>, m: LineMatchers): States {
    if |lines| == 0 then Empty
    else
      var last := lines[|lines| - 1];
      Update(Flow(lines[..|lines| - 1], m), last.1, last.0, m)
  }

  /** _update_variable_states, on the dictionary's value. */
  method UpdateVariableStates(states: States, instruction: string, lineNum: nat, m: LineMatchers)
    returns (r: States)
    ensures r == Update(states, instruction, lineNum, m)
  {
    r := states;
    var allocs := m.allocs(instruction);
    var k := 0;
    while k < |allocs|
      invariant 0 <= k <= |allocs|
      invariant r == AllocAll(states, allocs[..k], lineNum)
    {
      assert allocs[..k + 1][..k] == allocs[..k];
      var name := allocs[k];
      if name in r.entries {
        r := States(r.order, r.entries[name := Fresh(lineNum)]);
      } else {
        r := States(r.order + [name], r.entries[name := Fresh(lineNum)]);
      }
      k := k + 1;
    }
    assert allocs[..k] == allocs;
    ghost var afterAllocs := r;
    var frees := m.frees(instruction);
    k := 0;
    while k < |frees|
      invariant 0 <= k <= |frees|
      invariant r == FreeAll(afterAllocs, frees[..k], lineNum)
    {
      assert frees[..k + 1][..k] == frees[..k];
      var name := frees[k];
      if name in r.entries {
        r := States(r.order, r.entries[name := r.entries[name].(freed := true, freeLine := Some(lineNum))]);
      }
      k := k + 1;
    }
    assert frees[..k] == frees;
    ghost var afterFrees := r;
    var uses := m.uses(instruction);
    k := 0;
    while k < |uses|
      invariant 0 <= k <= |uses|
      invariant r == UseAll(afterFrees, uses[..k], lineNum)
    {
      assert uses[..k + 1][..k] == uses[..k];
      var name := uses[k];
      if name in r.entries {
        r := States(r.order, r.entries[name := r.entries[name].(lastUsed := lineNum)]);
      }
      k := k + 1;
    }
    assert uses[..k] == uses;
  }

  /** Appending one more block extends the concatenation by that block. */
  lemma ConcatStep(bs: seq<Block>, b: nat)
    requires b < |bs|
    ensures Concat(bs[..b + 1]) == Concat(bs[..b]) + bs[b]
  {
    assert bs[..b + 1][..b] == bs[..b];
  }

  /**
   * analyze_data_flow: visit the blocks in id order (the dictionary's
   * insertion order) and every instruction of each block in order.
   */
  method AnalyzeDataFlow(cfg: map<nat, Block>, m: LineMatchers) returns (states: States)
    requires Dense(cfg)
    ensures states == Flow(Concat(Ordered(cfg)), m)
    ensures Valid(states)
  {
    var blocks := Ordered(cfg);
    states := Empty;
    var b := 0;
    while b < |cfg|
      invariant 0 <= b <= |cfg|
      invariant states == Flow(Concat(blocks[..b]), m)
    {
      var instructions := cfg[b];
      assert instructions == blocks[b];
      ghost var before := Concat(blocks[..b]);
      assert before + instructions[..0] == before;
      var j := 0;
      while j < |instructions|
        invariant 0 <= j <= |instructions|
        invariant states == Flow(before + instructions[..j], m)
      {
        var (lineNum, instruction) := instructions[j];
        assert (before + instructions[..j + 1])[..|before| + j] == before + instructions[..j];
        states := UpdateVariableStates(states, instruction, lineNum, m);
        j := j + 1;
      }
      assert instructions[..j] == instructions;
      ConcatStep(blocks, b);
      b := b + 1;
    }
    assert blocks[..b] == blocks;
    FlowValid(Concat(blocks), m);
  }

  /** Every update keeps the key order in step with the keys. */
  lemma {:induction false} AllocAllValid(st: States, names: seq<string>, n: nat)
    requires Valid(st)
    ensures Valid(AllocAll(st, names, n))
  {
    if |names| > 0 {
      AllocAllValid(st, names[..|names| - 1], n);
    }
  }

  lemma {:induction false} FreeAllKeys(st: States, names: seq<string>, n: nat)
    ensures FreeAll(st, names, n).order == st.order
    ensures FreeAll(st, names, n).entries.Keys == st.entries.Keys
  {
    if |names| > 0 {
      FreeAllKeys(st, names[..|names| - 1], n);
    }
  }

  lemma {:induction false} UseAllKeys(st: States, names: seq<string>, n: nat)
    ensures UseAll(st, names, n).order == st.order
    ensures UseAll(st, names, n).entries.Keys == st.entries.Keys
  {
    if |names| > 0 {
      UseAllKeys(st, names[..|names| - 1], n);
    }
  }

  /** The dictionary's key order always lists each tracked variable once. */
  lemma {:induction false} FlowValid(lines: seq<NumberedLine>, m: LineMatchers)
    ensures Valid(Flow(lines, m))
  {
    if |lines| > 0 {
      var last := lines[|lines| - 1];
      var s0 := Flow(lines[..|lines| - 1], m);
      FlowValid(lines[..|lines| - 1], m);
      var s1 := AllocAll(s0, m.allocs(last.1), last.0);
      AllocAllValid(s0, m.allocs(last.1), last.0);
      var s2 := FreeAll(s1, m.frees(last.1), last.0);
      FreeAllKeys(s1, m.frees(last.1), last.0);
      UseAllKeys(s2, m.uses(last.1), last.0);
    }
  }

  /** What the allocation loop does to one variable: a match resets its record. */
  lemma {:induction false} AllocAllEffect(st: States, names: seq<string>, n: nat, x: string)
    ensures var r := AllocAll(st, names, n);
            && (x in r.entries <==> x in st.entries || x in names)
            && (x in names ==> r.entries[x] == Fresh(n))
            && (x !in names && x in st.entries ==> r.entries[x] == st.entries[x])
  {
    if |names| > 0 {
      var init := names[..|names| - 1];
      AllocAllEffect(st, init, n, x);
      assert names == init + [names[|names| - 1]];
    }
  }

  /** What the free loop does to one variable: a match marks a tracked record freed. */
  lemma {:induction false} FreeAllEffect(st: States, names: seq<string>, n: nat, x: string)
    ensures var r := FreeAll(st, names, n);
            && (x in r.entries <==> x in st.entries)
            && (x in st.entries ==>
                  && r.entries[x].isAllocated == st.entries[x].isAllocated
                  && r.entries[x].allocationLine == st.entries[x].allocationLine
                  && r.entries[x].freed == (st.entries[x].freed || x in names))
  {
    if |names| > 0 {
      var init := names[..|names| - 1];
      FreeAllEffect(st, init, n, x);
      assert names == init + [names[|names| - 1]];
    }
  }

  /** The use loop touches only last_used. */
  lemma {:induction false} UseAllEffect(st: States, names: seq<string>, n: nat, x: string)
    ensures var r := UseAll(st, names, n);
            && (x in r.entries <==> x in st.entries)
            && (x in st.entries ==>
                  && r.entries[x].isAllocated == st.entries[x].isAllocated
                  && r.entries[x].allocationLine == st.entries[x].allocationLine
                  && r.entries[x].freed == st.entries[x].freed)
  {
    if |names| > 0 {
      UseAllEffect(st, names[..|names| - 1], n, x);
    }
  }

  /** The index of the last line that allocates `x`, if any. */
  function LastAlloc(lines: seq<NumberedLine>, x: string, m: LineMatchers): (r: Option<nat>)
    ensures r.Some? ==> r.value < |lines| && x in m.allocs(lines[r.value].1)
    ensures r.Some? ==> forall k :: r.value < k < |lines| ==> x !in m.allocs(lines[k].1)
    ensures r.None? ==> forall k :: 0 <= k < |lines| ==> x !in m.allocs(lines[k].1)
  {
    if |lines| == 0 then None
    else if x in m.allocs(lines[|lines| - 1].1) then Some(|lines| - 1)
    else LastAlloc(lines[..|lines| - 1], x, m)
  }

  /** Some line from index `k` on frees `x`. */
  predicate FreedFrom(lines: seq<NumberedLine>, k: nat, x: string, m: LineMatchers) {
    exists j :: k <= j < |lines| && x in m.frees(lines[j].1)
  }

  lemma FreedFromSnoc(lines: seq<NumberedLine>, k: nat, x: string, m: LineMatchers)
    requires 0 < |lines| && k < |lines|
    ensures FreedFrom(lines, k, x, m) <==>
            FreedFrom(lines[..|lines| - 1], k, x, m) || x in m.frees(lines[|lines| - 1].1)
  {
    var init := lines[..|lines| - 1];
    if FreedFrom(lines, k, x, m) {
      var j :| k <= j < |lines| && x in m.frees(lines[j].1);
      if j < |lines| - 1 {
        assert init[j] == lines[j];
      }
    }
    if FreedFrom(init, k, x, m) {
      var j :| k <= j < |init| && x in m.frees(init[j].1);
      assert lines[j] == init[j];
    }
  }

  /**
   * The tracker's record of a variable after a run of lines: it is tracked
   * exactly when some line allocates it; its record then says allocated,
   * carries the line number of the LAST allocation, and reads freed
   * exactly when some free of it comes on or after that line (a free on
   * the allocation line itself counts, since frees are matched after
   * allocations).
   */
  lemma {:induction false} FlowTracks(lines: seq<NumberedLine>, m: LineMatchers, x: string)
    ensures x in Flow(lines, m).entries <==> LastAlloc(lines, x, m).Some?
    ensures LastAlloc(lines, x, m).Some? ==>
              var e := Flow(lines, m).entries[x];
              var k := LastAlloc(lines, x, m).value;
              e.isAllocated && e.allocationLine == lines[k].0 && (e.freed <==> FreedFrom(lines, k, x, m))
  {
    if |lines| > 0 {
      var init := lines[..|lines| - 1];
      var last := lines[|lines| - 1];
      FlowTracks(init, m, x);
      var s0 := Flow(init, m);
      var s1 := AllocAll(s0, m.allocs(last.1), last.0);
      var s2 := FreeAll(s1, m.frees(last.1), last.0);
      AllocAllEffect(s0, m.allocs(last.1), last.0, x);
      FreeAllEffect(s1, m.frees(last.1), last.0, x);
      UseAllEffect(s2, m.uses(last.1), last.0, x);
      if x in m.allocs(last.1) {
        FreedFromSnoc(lines, |lines| - 1, x, m);
      } else if LastAlloc(init, x, m).Some? {
        FreedFromSnoc(lines, LastAlloc(init, x, m).value, x, m);
      }
    }
  }

  /** Python's `state.get('allocated') and not state.get('freed')`. */
  predicate Leaking(e: VarState) {
    e.isAllocated && !e.freed
  }

  /** The leaking variables, in the dictionary's key order. */
  function LeakNames(order: seq<string>, entries: map<string, VarState>): (r: seq<string>)
    ensures forall x :: x in r ==> x in order && x in entries && Leaking(entries[x])
  {
    if |order| == 0 then []
    else
      var rest := LeakNames(order[..|order| - 1], entries);
      var x := order[|order| - 1];
      if x in entries && Leaking(entries[x]) then rest + [x] else rest
  }

  /** The issue the leak rule reports for a variable. */
  function LeakIssue(filePath: string, name: string, e: VarState): (i: Issue)
    ensures i.filePath == filePath && i.line == e.allocationLine && i.column == 0
    ensures i.issueType == "DATAFLOW_MEMORY_LEAK" && i.severity == High && i.category == MemorySafety
    ensures i.confidence == 0.8 && i.cwe == []
  {
    Issue(filePath, e.allocationLine, 0, "DATAFLOW_MEMORY_LEAK", MemorySafety, High, "Переменная: " + name, 0.8, [])
  }

  /** One leak issue per name, in order. */
  function IssuesFor(filePath: string, names: seq<string>, entries: map<string, VarState>): (r: seq<Issue>)
    requires forall x :: x in names ==> x in entries
    ensures |r| == |names|
  {
    if |names| == 0 then []
    else
      var x := names[|names| - 1];
      IssuesFor(filePath, names[..|names| - 1], entries) + [LeakIssue(filePath, x, entries[x])]
  }

  /** The leak rule's issues for the final states, one per leaking variable in key order. */
  function LeakIssues(filePath: string, st: States): seq<Issue> {
    IssuesFor(filePath, LeakNames(st.order, st.entries), st.entries)
  }

  /** The issue at each position is the one of the leaking name at that position. */
  lemma {:induction false} IssuesForAt(filePath: string, names: seq<string>, entries: map<string, VarState>, i: nat)
    requires forall x :: x in names ==> x in entries
    requires i < |names|
    ensures IssuesFor(filePath, names, entries)[i] == LeakIssue(filePath, names[i], entries[names[i]])
  {
    if i < |names| - 1 {
      IssuesForAt(filePath, names[..|names| - 1], entries, i);
    }
  }

  /** One more key of the order adds its issue when its record is leaking. */
  lemma LeakIssuesSnoc(filePath: string, order: seq<string>, entries: map<string, VarState>, k: nat)
    requires k < |order| && forall x :: x in order ==> x in entries
    ensures IssuesFor(filePath, LeakNames(order[..k + 1], entries), entries)
      == IssuesFor(filePath, LeakNames(order[..k], entries), entries)
         + (if Leaking(entries[order[k]]) then [LeakIssue(filePath, order[k], entries[order[k]])] else [])
  {
    assert order[..k + 1][..k] == order[..k];
    var names := LeakNames(order[..k], entries);
    if Leaking(entries[order[k]]) {
      assert LeakNames(order[..k + 1], entries) == names + [order[k]];
      assert (names + [order[k]])[..|names|] == names;
    }
  }

  /**
   * The leak loop of _control_flow_analysis: one HIGH memory-safety issue
   * per tracked variable that is still allocated and not freed, at its
   * allocation line.
   */
  method LeakFindings(filePath: string, dataFlow: States) returns (issues: seq<Issue>)
    requires Valid(dataFlow)
    ensures issues == LeakIssues(filePath, dataFlow)
  {
    var order, entries := dataFlow.order, dataFlow.entries;
    assert forall x :: x in order ==> x in entries;
    issues := [];
    var k := 0;
    while k < |order|
      invariant 0 <= k <= |order|
      invariant issues == IssuesFor(filePath, LeakNames(order[..k], entries), entries)
    {
      var name := order[k];
      var state := entries[name];
      LeakIssuesSnoc(filePath, order, entries, k);
      if state.isAllocated && !state.freed {
        issues := issues + [LeakIssue(filePath, name, state)];
      }
      k := k + 1;
    }
    assert order[..k] == order;
  }

  /**
   * _control_flow_analysis: partition the file, run the tracker over the
   * blocks, report the leaks; the stage's metrics are all zero.
   */
  method ControlFlowAnalysis(filePath: string, content: string, m: LineMatchers)
    returns (issues: seq<Issue>, metrics: FileMetrics)
    ensures issues == LeakIssues(filePath, Flow(NumberedLines(content), m))
    ensures metrics == ZeroMetrics
  {
    var cfg := BuildControlFlowGraph(content, IsControlFlowStatement);
    var dataFlow := AnalyzeDataFlow(cfg, m);
    issues := LeakFindings(filePath, dataFlow);
    metrics := ZeroMetrics;
  }

  /** With the key order valid, a variable is reported exactly when its record is leaking, and at most once. */
  lemma {:induction false} LeakNamesExact(order: seq<string>, entries: map<string, VarState>, x: string)
    requires forall i, j :: 0 <= i < j < |order| ==> order[i] != order[j]
    ensures x in LeakNames(order, entries) <==> x in order && x in entries && Leaking(entries[x])
    ensures forall i, j :: 0 <= i < j < |LeakNames(order, entries)| ==>
              LeakNames(order, entries)[i] != LeakNames(order, entries)[j]
  {
    if |order| > 0 {
      var init := order[..|order| - 1];
      LeakNamesExact(init, entries, x);
      assert order == init + [order[|order| - 1]];
      var last := order[|order| - 1];
      assert last !in init;
    }
  }

  /**
   * End to end: the control-flow stage reports variable `x` exactly when
   * some line of the file allocates it and no free of it comes on or
   * after its last allocation line, and then reports it once.
   */
  lemma LeakReportedIff(content: string, m: LineMatchers, x: string)
    ensures var lines := NumberedLines(content);
            var st := Flow(lines, m);
            x in LeakNames(st.order, st.entries) <==>
              LastAlloc(lines, x, m).Some? && !FreedFrom(lines, LastAlloc(lines, x, m).value, x, m)
  {
    var lines := NumberedLines(content);
    FlowValid(lines, m);
    FlowTracks(lines, m, x);
    var st := Flow(lines, m);
    LeakNamesExact(st.order, st.entries, x);
  }
}
