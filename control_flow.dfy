/**
 * ControlFlowAnalyzer, first half: the lexical block partitioner
 * (build_control_flow_graph) and the control-flow line test
 * (_is_control_flow_statement). A "graph" here is a dictionary from block
 * id to the block's (line number, stripped text) pairs; it has no edges.
 */
module ControlFlow {
  import opened Text

  /** Python's str.isspace / the regex class \s for str patterns. */
  predicate IsSpace(c: char) {
    c == ' ' || '\t' <= c <= '\r' || '\U{1c}' <= c <= '\U{1f}' || c == '\U{85}' || c == '\U{a0}'
    || c == '\U{1680}' || '\U{2000}' <= c <= '\U{200a}' || c == '\U{2028}' || c == '\U{2029}'
    || c == '\U{202f}' || c == '\U{205f}' || c == '\U{3000}'
  }

  /** str.lstrip(). */
  function StripLeft(s: string): (r: string)
    ensures |r| <= |s| && r == s[|s| - |r|..]
    ensures |r| > 0 ==> !IsSpace(r[0])
  {
    if |s| > 0 && IsSpace(s[0]) then StripLeft(s[1..]) else s
  }

  /** str.rstrip(). */
  function StripRight(s: string): (r: string)
    ensures |r| <= |s| && r == s[..|r|]
    ensures |r| > 0 ==> !IsSpace(r[|r| - 1])
  {
    if |s| > 0 && IsSpace(s[|s| - 1]) then StripRight(s[..|s| - 1]) else s
  }

  /** str.strip(): no leading or trailing whitespace remains. */
  function Strip(s: string): (r: string)
    ensures |r| > 0 ==> !IsSpace(r[0]) && !IsSpace(r[|r| - 1])
  {
    StripRight(StripLeft(s))
  }

  /** The regex `^kw\s*(` (with `next` for the parenthesis) or `^kw\s*;`. */
  predicate KeywordThen(line: string, kw: string, next: char) {
    StartsWith(line, kw) && var rest := StripLeft(line[|kw|..]); |rest| > 0 && rest[0] == next
  }

  /** The regex `^kw\s+`. */
  predicate KeywordSpace(line: string, kw: string) {
    StartsWith(line, kw) && |line| > |kw| && IsSpace(line[|kw|])
  }

  /**
   * _is_control_flow_statement: any of the ten anchored patterns matches.
   * The partitioner takes the test as a parameter; this is the source's.
   */
  predicate IsControlFlowStatement(line: string) {
    KeywordThen(line, "if", '(') || StartsWith(line, "else") || KeywordThen(line, "for", '(')
    || KeywordThen(line, "while", '(') || KeywordThen(line, "switch", '(')
    || KeywordSpace(line, "case") || KeywordSpace(line, "return")
    || KeywordThen(line, "break", ';') || KeywordThen(line, "continue", ';')
    || KeywordSpace(line, "goto")
  }

  /** `^else` has no word boundary: an assignment to `elsewhere` counts as control flow. */
  lemma ElseHasNoWordBoundary()
    ensures IsControlFlowStatement("elsewhere = 1;")
  {
    assert StartsWith("elsewhere = 1;", "else");
  }

  /** `^if\s*\(` needs no space before the parenthesis. */
  lemma IfWithoutSpace()
    ensures IsControlFlowStatement("if(x)")
  {
    assert StartsWith("if(x)", "if") && "if(x)"[2..] == "(x)";
  }

  /** `^return\s+` needs whitespace after the keyword: a bare `return;` does not count. */
  lemma BareReturnIsNotControlFlow()
    ensures !IsControlFlowStatement("return;")
  {
    var r := "return;";
    assert r[0] == 'r' && r[6] == ';';
    assert !StartsWith(r, "else") && !StartsWith(r, "if") && !StartsWith(r, "for");
    assert !StartsWith(r, "while") && !StartsWith(r, "switch") && !StartsWith(r, "case");
    assert !StartsWith(r, "break") && !StartsWith(r, "continue") && !StartsWith(r, "goto");
  }

  /** One entry of a block: the 1-based line number and the stripped line. */
  type NumberedLine = (nat, string)

  type Block = seq<NumberedLine>

  /** The stripped lines, numbered from 1. */
  function Numbered(lines: seq<string>): (r: seq<NumberedLine>)
    ensures |r| == |lines|
  {
    seq(|lines|, i requires 0 <= i < |lines| => (i + 1, Strip(lines[i])))
  }

  /** The stripped lines of `code`, numbered from 1, as the partitioner sees them. */
  function NumberedLines(code: string): seq<NumberedLine> {
    Numbered(Split(code, '\n'))
  }

  /** There is one numbered line per newline plus one, and line k is numbered k + 1. */
  lemma NumberedLinesShape(code: string)
    ensures |NumberedLines(code)| == CountChar(code, '\n') + 1
    ensures forall i :: 0 <= i < |NumberedLines(code)| ==> NumberedLines(code)[i].0 == i + 1
  {
  }

  /** The blocks concatenated in order. */
  function Concat(bs: seq<Block>): seq<NumberedLine> {
    if |bs| == 0 then [] else Concat(bs[..|bs| - 1]) + bs[|bs| - 1]
  }

  /** The dictionary's keys are exactly the ids 0..|cfg|-1. */
  ghost predicate Dense(cfg: map<nat, Block>) {
    forall b: nat :: b in cfg <==> b < |cfg|
  }

  /** The dictionary's blocks in id order, when its keys are 0..|cfg|-1. */
  function Ordered(cfg: map<nat, Block>): seq<Block>
    requires Dense(cfg)
  {
    seq(|cfg|, i requires 0 <= i < |cfg| => cfg[i])
  }

  /** The text of a block's last line. */
  function LastText(b: Block): string
    requires |b| > 0
  {
    b[|b| - 1].1
  }

  /** Two consecutive blocks were split for a reason: the first closed on "}" or the second opens on a control-flow line. */
  predicate Justified(prev: Block, next: Block, isCf: string -> bool) {
    |prev| > 0 && |next| > 0 && (LastText(prev) == "}" || isCf(next[0].1))
  }

  /**
   * The block partition of `lines` for a control-flow test: concatenated
   * in order the blocks give the lines; no block is empty; a control-flow
   * line only ever opens a block; a "}" line only ever closes one; and two
   * consecutive blocks are split for one of those two reasons only.
   */
  predicate IsPartition(bs: seq<Block>, lines: seq<NumberedLine>, isCf: string -> bool) {
    Concat(bs) == lines && WellFormed(bs, isCf)
  }

  /** The block-shape half of IsPartition. */
  predicate WellFormed(bs: seq<Block>, isCf: string -> bool) {
    && (forall b :: 0 <= b < |bs| ==> |bs[b]| > 0)
    && (forall b, j :: 0 <= b < |bs| && 0 < j < |bs[b]| ==> !isCf(bs[b][j].1))
    && (forall b, j :: 0 <= b < |bs| && 0 <= j < |bs[b]| - 1 ==> bs[b][j].1 != "}")
    && (forall b :: 0 <= b < |bs| - 1 ==> JustifiedAt(bs, b, isCf))
  }

  /** Blocks `b` and `b + 1` were split for a reason. */
  predicate JustifiedAt(bs: seq<Block>, b: nat, isCf: string -> bool)
    requires b < |bs| - 1
  {
    Justified(bs[b], bs[b + 1], isCf)
  }

  /** The block being filled: it could be closed now without breaking the partition rules. */
  predicate Pending(blocks: seq<Block>, current: Block, isCf: string -> bool) {
    && (forall j :: 0 < j < |current| ==> !isCf(current[j].1))
    && (forall j :: 0 <= j < |current| - 1 ==> current[j].1 != "}")
    && (|blocks| > 0 && |current| > 0 ==> Justified(blocks[|blocks| - 1], current, isCf))
  }

  /** The partitioner's state: the closed blocks and the block being filled. */
  datatype Scan = Scan(closed: seq<Block>, current: Block)

  /** One line of the walk: close before a control-flow line, append, close after "}". */
  function Step(st: Scan, line: NumberedLine, isCf: string -> bool): Scan {
    var st1 := if isCf(line.1) && st.current != [] then Scan(st.closed + [st.current], []) else st;
    var cur := st1.current + [line];
    if line.1 == "}" then Scan(st1.closed + [cur], []) else Scan(st1.closed, cur)
  }

  /** The walk over the first `i` lines. */
  function ScanUpTo(lines: seq<NumberedLine>, i: nat, isCf: string -> bool): Scan
    requires i <= |lines|
  {
    if i == 0 then Scan([], []) else Step(ScanUpTo(lines, i - 1, isCf), lines[i - 1], isCf)
  }

  /** The blocks of the walk, with a trailing non-empty block closed. */
  function Partition(lines: seq<NumberedLine>, isCf: string -> bool): seq<Block> {
    var st := ScanUpTo(lines, |lines|, isCf);
    if st.current != [] then st.closed + [st.current] else st.closed
  }

  /** What holds of the walk's state after every line. */
  predicate ScanInv(st: Scan, lines: seq<NumberedLine>, isCf: string -> bool) {
    && Concat(st.closed) + st.current == lines
    && WellFormed(st.closed, isCf)
    && Pending(st.closed, st.current, isCf)
    && (|st.current| > 0 ==> LastText(st.current) != "}")
    && (|st.closed| > 0 && st.current == [] ==> LastText(st.closed[|st.closed| - 1]) == "}")
  }

  lemma StepInv(st: Scan, lines: seq<NumberedLine>, line: NumberedLine, isCf: string -> bool)
    requires ScanInv(st, lines, isCf)
    ensures ScanInv(Step(st, line, isCf), lines + [line], isCf)
  {
    var st1 := if isCf(line.1) && st.current != [] then Scan(st.closed + [st.current], []) else st;
    OpenStep(st, lines, line, isCf);
    var cur := st1.current + [line];
    ExtendStep(st1, lines, line, isCf);
    if line.1 == "}" {
      Close(st1.closed, cur, isCf);
      ConcatSnoc(st1.closed, cur);
      assert LastText(cur) == "}";
    } else {
      assert LastText(cur) != "}";
    }
  }

  /** The first half of a step: closing before a control-flow line. */
  lemma OpenStep(st: Scan, lines: seq<NumberedLine>, line: NumberedLine, isCf: string -> bool)
    requires ScanInv(st, lines, isCf)
    ensures var st1 := if isCf(line.1) && st.current != [] then Scan(st.closed + [st.current], []) else st;
            && Concat(st1.closed) + st1.current == lines
            && WellFormed(st1.closed, isCf)
            && Pending(st1.closed, st1.current, isCf)
            && (|st1.current| > 0 ==> LastText(st1.current) != "}" && !isCf(line.1))
            && (|st1.closed| > 0 && st1.current == [] ==> LastText(st1.closed[|st1.closed| - 1]) == "}" || isCf(line.1))
  {
    if isCf(line.1) && st.current != [] {
      Close(st.closed, st.current, isCf);
      ConcatSnoc(st.closed, st.current);
    }
  }

  /** The second half of a step: the line joins the current block. */
  lemma ExtendStep(st1: Scan, lines: seq<NumberedLine>, line: NumberedLine, isCf: string -> bool)
    requires Concat(st1.closed) + st1.current == lines
    requires WellFormed(st1.closed, isCf)
    requires Pending(st1.closed, st1.current, isCf)
    requires |st1.current| > 0 ==> LastText(st1.current) != "}" && !isCf(line.1)
    requires |st1.closed| > 0 && st1.current == [] ==> LastText(st1.closed[|st1.closed| - 1]) == "}" || isCf(line.1)
    ensures Concat(st1.closed) + (st1.current + [line]) == lines + [line]
    ensures Pending(st1.closed, st1.current + [line], isCf)
  {
    Extend(st1.closed, st1.current, line, isCf);
  }

  lemma {:induction false} ScanUpToInv(lines: seq<NumberedLine>, i: nat, isCf: string -> bool)
    requires i <= |lines|
    ensures ScanInv(ScanUpTo(lines, i, isCf), lines[..i], isCf)
  {
    if i > 0 {
      ScanUpToInv(lines, i - 1, isCf);
      assert lines[..i - 1] + [lines[i - 1]] == lines[..i];
      StepInvAt(ScanUpTo(lines, i - 1, isCf), lines[..i - 1], lines[i - 1], ScanUpTo(lines, i, isCf), lines[..i], isCf);
    }
  }

  /** StepInv, stated for the state and lines the next step yields. */
  lemma StepInvAt(st: Scan, lines: seq<NumberedLine>, line: NumberedLine, st': Scan, lines': seq<NumberedLine>, isCf: string -> bool)
    requires ScanInv(st, lines, isCf)
    requires st' == Step(st, line, isCf) && lines' == lines + [line]
    ensures ScanInv(st', lines', isCf)
  {
    StepInv(st, lines, line, isCf);
  }

  /** The walk yields a block partition of the lines. */
  lemma PartitionIsPartition(lines: seq<NumberedLine>, isCf: string -> bool)
    ensures IsPartition(Partition(lines, isCf), lines, isCf)
  {
    var st := ScanUpTo(lines, |lines|, isCf);
    ScanUpToInv(lines, |lines|, isCf);
    assert lines[..|lines|] == lines;
    if st.current != [] {
      Close(st.closed, st.current, isCf);
      ConcatSnoc(st.closed, st.current);
    }
  }

  /** Storing a block under the next id appends it to the ordered blocks. */
  lemma OrderedSnoc(cfg: map<nat, Block>, blk: Block)
    requires Dense(cfg)
    ensures Dense(cfg[|cfg| := blk])
    ensures Ordered(cfg[|cfg| := blk]) == Ordered(cfg) + [blk]
  {
    assert |cfg| !in cfg;
    assert |cfg[|cfg| := blk]| == |cfg| + 1;
  }

  /**
   * build_control_flow_graph: split the code into stripped, numbered lines
   * and partition them.
   */
  method BuildControlFlowGraph(code: string, isCf: string -> bool) returns (cfg: map<nat, Block>)
    ensures Dense(cfg)
    ensures IsPartition(Ordered(cfg), NumberedLines(code), isCf)
  {
    cfg := PartitionLines(NumberedLines(code), isCf);
  }

  /**
   * The loop of build_control_flow_graph: walk the stripped lines, closing
   * the current block before a control-flow line and after a "}" line;
   * block ids count up from 0.
   */
  method PartitionLines(lines: seq<NumberedLine>, isCf: string -> bool) returns (cfg: map<nat, Block>)
    ensures Dense(cfg)
    ensures Ordered(cfg) == Partition(lines, isCf)
    ensures IsPartition(Ordered(cfg), lines, isCf)
  {
    cfg := map[];
    var current: Block := [];
    var blockId := 0;
    var i := 0;
    while i < |lines|
      invariant 0 <= i <= |lines|
      invariant Dense(cfg) && blockId == |cfg|
      invariant Scan(Ordered(cfg), current) == ScanUpTo(lines, i, isCf)
    {
      var (n, line) := lines[i];
      if isCf(line) && current != [] {
        OrderedSnoc(cfg, current);
        cfg := cfg[blockId := current];
        current := [];
        blockId := blockId + 1;
      }
      current := current + [(n, line)];
      if line == "}" {
        OrderedSnoc(cfg, current);
        cfg := cfg[blockId := current];
        current := [];
        blockId := blockId + 1;
      }
      i := i + 1;
    }
    if current != [] {
      OrderedSnoc(cfg, current);
      cfg := cfg[blockId := current];
    }
    PartitionIsPartition(lines, isCf);
  }

  /** Appending a line keeps the current block closable, unless a control-flow line should have opened a new one. */
  lemma Extend(blocks: seq<Block>, current: Block, line: NumberedLine, isCf: string -> bool)
    requires Pending(blocks, current, isCf)
    requires |blocks| > 0 ==> |blocks[|blocks| - 1]| > 0
    requires |current| > 0 ==> LastText(current) != "}" && !isCf(line.1)
    requires |blocks| > 0 && current == [] ==> LastText(blocks[|blocks| - 1]) == "}" || isCf(line.1)
    ensures Pending(blocks, current + [line], isCf)
  {
  }

  lemma ConcatSnoc(blocks: seq<Block>, b: Block)
    ensures Concat(blocks + [b]) == Concat(blocks) + b
  {
    assert (blocks + [b])[..|blocks|] == blocks;
  }

  /** Closing a non-empty current block keeps the closed blocks a partition. */
  lemma Close(blocks: seq<Block>, current: Block, isCf: string -> bool)
    requires WellFormed(blocks, isCf)
    requires current != [] && Pending(blocks, current, isCf)
    ensures WellFormed(blocks + [current], isCf)
  {
    var bs := blocks + [current];
    assert bs[..|bs| - 1] == blocks;
    assert forall b :: 0 <= b < |blocks| ==> bs[b] == blocks[b];
    assert bs[|blocks|] == current;
    forall b | 0 <= b < |bs| ensures |bs[b]| > 0 {
    }
    forall b, j | 0 <= b < |bs| && 0 < j < |bs[b]| ensures !isCf(bs[b][j].1) {
    }
    forall b, j | 0 <= b < |bs| && 0 <= j < |bs[b]| - 1 ensures bs[b][j].1 != "}" {
    }
    forall b | 0 <= b < |bs| - 1 ensures JustifiedAt(bs, b, isCf) {
      if b < |blocks| - 1 {
        assert JustifiedAt(blocks, b, isCf);
      }
    }
  }

  /** Every line is in some block, and the blocks together hold exactly n = count('\n') + 1 lines. */
  lemma {:induction false} ConcatLength(bs: seq<Block>)
    ensures |Concat(bs)| == SumLengths(bs)
  {
    if |bs| > 0 { ConcatLength(bs[..|bs| - 1]); }
  }

  function SumLengths(bs: seq<Block>): nat {
    if |bs| == 0 then 0 else SumLengths(bs[..|bs| - 1]) + |bs[|bs| - 1]|
  }

  /** The partition built from `code` holds every line once: the block lengths add up to the line count. */
  lemma PartitionLineCount(code: string, isCf: string -> bool, bs: seq<Block>)
    requires IsPartition(bs, NumberedLines(code), isCf)
    ensures SumLengths(bs) == CountChar(code, '\n') + 1
  {
    ConcatLength(bs);
  }
}
