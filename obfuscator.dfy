/**
 * The C obfuscator's passes as it runs them: each pass walks the text
 * with a read position `pos`, appends to a result buffer, and finally
 * copies the result back over `content`. The loops below are those
 * walks; each is proved to produce the text the matching function of
 * ObfusText describes.
 */
module Obfuscator {
  import opened Wrappers
  import opened Text
  import opened ObfusText

  // ---------------------------------------------------------------------
  // polymorphic_transform

  /** Appending the next piece keeps "written + still to write" equal to the whole output. */
  lemma Advance(written: string, piece: string, later: string, now: string, total: string)
    requires written + now == total && now == piece + later
    ensures (written + piece) + later == total
  {
  }

  /** One step of the pass at a position `pos` of the whole text. */
  lemma PolymorphicAt(text: string, pos: nat)
    requires pos < |text|
    ensures StartsWith(text[pos..], "if (") ==>
      Polymorphic(text[pos..]) == "if ((" + Polymorphic(text[pos + 4..])
    ensures !StartsWith(text[pos..], "if (") && StartsWith(text[pos..], "++") ==>
      Polymorphic(text[pos..]) == " += 1" + Polymorphic(text[pos + 2..])
    ensures !StartsWith(text[pos..], "if (") && !StartsWith(text[pos..], "++") && StartsWith(text[pos..], "--") ==>
      Polymorphic(text[pos..]) == " -= 1" + Polymorphic(text[pos + 2..])
  {
    var t := text[pos..];
    if StartsWith(t, "if (") {
      assert t[4..] == text[pos + 4..];
    } else if StartsWith(t, "++") || StartsWith(t, "--") {
      assert t[2..] == text[pos + 2..];
    }
  }

  /** The loop rewrite at `pos`, where the first "){" is `e` characters on. */
  lemma PolymorphicForAt(text: string, pos: nat, e: nat)
    requires pos < |text|
    requires !StartsWith(text[pos..], "if (") && !StartsWith(text[pos..], "++") && !StartsWith(text[pos..], "--")
    requires StartsWith(text[pos..], "for (") && IndexOf(text[pos..], "){") == Some(e)
    ensures 5 <= e && pos + e + 2 <= |text|
    ensures Polymorphic(text[pos..]) == "{ int " + text[pos + 5..pos + e] + "; while(1) {" + Polymorphic(text[pos + e + 2..])
  {
    var t := text[pos..];
    ForHeaderBeforeBrace(t);
    assert t[e + 2..] == text[pos + e + 2..];
    assert t[5..e] == text[pos + 5..pos + e];
  }

  /** The character copy at `pos` when no rewrite applies there. */
  lemma PolymorphicCopyAt(text: string, pos: nat)
    requires pos < |text|
    requires !StartsWith(text[pos..], "if (") && !StartsWith(text[pos..], "++") && !StartsWith(text[pos..], "--")
    requires !(StartsWith(text[pos..], "for (") && IndexOf(text[pos..], "){").Some?)
    ensures Polymorphic(text[pos..]) == [text[pos]] + Polymorphic(text[pos + 1..])
  {
    assert text[pos..][1..] == text[pos + 1..];
  }

  /** One turn of the `while (*pos)` loop of polymorphic_transform: what it appends and where it goes on. */
  method PolymorphicStep(text: string, pos: nat) returns (piece: string, next: nat)
    requires pos < |text|
    ensures pos < next <= |text|
    ensures Polymorphic(text[pos..]) == piece + Polymorphic(text[next..])
  {
    PolymorphicAt(text, pos);
    if StartsWith(text[pos..], "if (") {
      return "if ((", pos + 4;
    }
    if StartsWith(text[pos..], "++") {
      return " += 1", pos + 2;
    }
    if StartsWith(text[pos..], "--") {
      return " -= 1", pos + 2;
    }
    piece, next := ForOrCopyStep(text, pos);
  }

  /** The rest of a turn: a closed "for (" header, or the copy of one character. */
  method ForOrCopyStep(text: string, pos: nat) returns (piece: string, next: nat)
    requires pos < |text|
    requires !StartsWith(text[pos..], "if (") && !StartsWith(text[pos..], "++") && !StartsWith(text[pos..], "--")
    ensures pos < next <= |text|
    ensures Polymorphic(text[pos..]) == piece + Polymorphic(text[next..])
  {
    var header := if StartsWith(text[pos..], "for (") then IndexOf(text[pos..], "){") else None;
    if header.Some? {
      piece, next := ForStep(text, pos, header.value);
    } else {
      PolymorphicCopyAt(text, pos);
      piece, next := [text[pos]], pos + 1;
    }
  }

  /** A "for (" header closed `e` characters on by "){". */
  method ForStep(text: string, pos: nat, e: nat) returns (piece: string, next: nat)
    requires pos < |text|
    requires !StartsWith(text[pos..], "if (") && !StartsWith(text[pos..], "++") && !StartsWith(text[pos..], "--")
    requires StartsWith(text[pos..], "for (") && IndexOf(text[pos..], "){") == Some(e)
    ensures pos < next <= |text|
    ensures Polymorphic(text[pos..]) == piece + Polymorphic(text[next..])
  {
    PolymorphicForAt(text, pos, e);
    piece := "{ int " + text[pos + 5..pos + e] + "; while(1) {";
    next := pos + e + 2;
  }

  /** The `while (*pos)` loop of polymorphic_transform. */
  method RewritePolymorphic(text: string) returns (result: string)
    ensures result == Polymorphic(text)
  {
    var pos := 0;
    result := "";
    while pos < |text|
      invariant pos <= |text|
      invariant result + Polymorphic(text[pos..]) == Polymorphic(text)
      decreases |text| - pos
    {
      var piece, next := PolymorphicStep(text, pos);
      Advance(result, piece, Polymorphic(text[next..]), Polymorphic(text[pos..]), Polymorphic(text));
      result := result + piece;
      pos := next;
    }
  }

  // ---------------------------------------------------------------------
  // import_obfuscation

  /** An "#include" line at `pos` ended by the newline `e` characters on is skipped. */
  lemma SkipLineAt(text: string, pos: nat, e: nat)
    requires pos <= |text| && StartsWith(text[pos..], "#include") && FirstIndexOf(text[pos..], '\n') == Some(e)
    ensures pos + e + 1 <= |text|
    ensures SkipIncludes(text[pos..]) == SkipIncludes(text[pos + e + 1..])
  {
    assert text[pos..][e + 1..] == text[pos + e + 1..];
  }

  /** Anything else at `pos` ends the skipping. */
  lemma SkipStopsAt(text: string, pos: nat)
    requires pos <= |text|
    requires !StartsWith(text[pos..], "#include") || FirstIndexOf(text[pos..], '\n').None?
    ensures SkipIncludes(text[pos..]) == text[pos..]
  {
  }

  /** The loop that steps over the leading "#include" lines. */
  method SkipIncludeLines(text: string) returns (rest: string)
    ensures rest == SkipIncludes(text)
  {
    var pos := 0;
    while pos < |text|
      invariant pos <= |text|
      invariant SkipIncludes(text[pos..]) == SkipIncludes(text)
      decreases |text| - pos
    {
      if StartsWith(text[pos..], "#include") {
        var lineEnd := FirstIndexOf(text[pos..], '\n');
        if lineEnd.Some? {
          SkipLineAt(text, pos, lineEnd.value);
          var next := pos + lineEnd.value + 1;
          assert SkipIncludes(text[next..]) == SkipIncludes(text);
          pos := next;
          continue;
        }
      }
      SkipStopsAt(text, pos);
      break;
    }
    rest := text[pos..];
  }

  // ---------------------------------------------------------------------
  // anti_debug_functions

  /** `while (*pos && *pos != '{') pos++; if (*pos == '{') pos++;` from the "main(" at `m`. */
  method FindBodyStart(t: string, m: nat) returns (pos: nat)
    requires m <= |t|
    ensures pos == AfterBrace(t, m)
  {
    pos := m;
    while pos < |t| && t[pos] != '{'
      invariant m <= pos <= |t|
      invariant AfterBrace(t, pos) == AfterBrace(t, m)
      decreases |t| - pos
    {
      pos := pos + 1;
    }
    if pos < |t| {
      pos := pos + 1;
    }
  }

  // ---------------------------------------------------------------------
  // advanced_string_obfuscation

  /** The scan for the closing quote of the literal that opens at `t[0]`. */
  method FindClosingQuote(t: string) returns (r: Option<nat>)
    requires |t| > 0
    ensures r == ClosingQuote(t, 1)
  {
    var stringEnd := 1;
    while stringEnd < |t| && (t[stringEnd] != '"' || t[stringEnd - 1] == '\\')
      invariant 1 <= stringEnd <= |t|
      invariant ClosingQuote(t, stringEnd) == ClosingQuote(t, 1)
      decreases |t| - stringEnd
    {
      stringEnd := stringEnd + 1;
    }
    r := if stringEnd < |t| then Some(stringEnd) else None;
  }

  /** The "%d," list grows by one number at its end. */
  lemma {:induction false} CodesTextSnoc(codes: seq<nat>, x: nat)
    ensures CodesText(codes + [x]) == CodesText(codes) + Decimal(x) + ","
    decreases |codes|
  {
    if |codes| == 0 {
      assert codes + [x] == [x];
    } else {
      assert (codes + [x])[1..] == codes[1..] + [x];
      CodesTextSnoc(codes[1..], x);
    }
  }

  /** The extreme-level loop `for (i = 1; i < string_len - 1; i++)` over the literal's characters. */
  method EmitCodes(literal: string) returns (codes: string)
    requires |literal| >= 2
    ensures codes == CodesText(Codes(literal[1..|literal| - 1]))
  {
    var i := 1;
    codes := "";
    assert literal[1..1] == [];
    while i < |literal| - 1
      invariant 1 <= i <= |literal| - 1
      invariant codes == CodesText(Codes(literal[1..i]))
      decreases |literal| - i
    {
      var obfuscated := EncodeByte(ByteOf(literal[i]));
      assert Codes(literal[1..i + 1]) == Codes(literal[1..i]) + [obfuscated];
      CodesTextSnoc(Codes(literal[1..i]), obfuscated);
      codes := codes + Decimal(obfuscated) + ",";
      i := i + 1;
    }
  }

  /** What the pass writes for one closed literal; `n` counts the rand() calls made so far. */
  method EmitLiteral(literal: string, level: Level, pool: Pool, draws: nat -> nat, n: nat) returns (piece: string, next: nat)
    requires |literal| >= 2
    ensures piece == LiteralText(literal, level, pool, draws, n)
    ensures next == n + DrawsPerLiteral(level)
  {
    if level.Rank() >= 3 {
      var codes := EmitCodes(literal);
      piece := "__DECRYPT_STR" + Decimal(draws(n) % 1000) + "(" + codes + "0)";
      next := n + 1;
    } else if level.Rank() >= 2 {
      piece := "\"" + pool[draws(n) % |pool|] + "\" \"" + pool[draws(n + 1) % |pool|] + "\"";
      next := n + 2;
    } else {
      piece := literal;
      next := n;
    }
  }

  /** A character other than a quote is copied. */
  lemma StringsCopyAt(text: string, pos: nat, level: Level, pool: Pool, draws: nat -> nat, n: nat)
    requires pos < |text| && text[pos] != '"'
    ensures Strings(text[pos..], level, pool, draws, n) == [text[pos]] + Strings(text[pos + 1..], level, pool, draws, n)
  {
    assert text[pos..][1..] == text[pos + 1..];
  }

  /** A closed literal `e` characters long after its opening quote is rewritten as a whole. */
  lemma StringsLiteralAt(text: string, pos: nat, e: nat, next: nat, level: Level, pool: Pool, draws: nat -> nat, n: nat)
    requires pos < |text| && text[pos] == '"' && ClosingQuote(text[pos..], 1) == Some(e)
    requires next == pos + e + 1
    ensures pos < next <= |text|
    ensures Strings(text[pos..], level, pool, draws, n)
      == LiteralText(text[pos..next], level, pool, draws, n)
       + Strings(text[next..], level, pool, draws, n + DrawsPerLiteral(level))
  {
    var t := text[pos..];
    assert t[..e + 1] == text[pos..next];
    assert t[e + 1..] == text[next..];
  }

  /** An unclosed quote: the character after it is copied, or the text ends. */
  lemma StringsUnclosedAt(text: string, pos: nat, level: Level, pool: Pool, draws: nat -> nat, n: nat)
    requires pos < |text| && text[pos] == '"' && ClosingQuote(text[pos..], 1).None?
    ensures pos + 1 == |text| ==> Strings(text[pos..], level, pool, draws, n) == ""
    ensures pos + 1 < |text| ==>
      Strings(text[pos..], level, pool, draws, n) == [text[pos + 1]] + Strings(text[pos + 2..], level, pool, draws, n)
  {
    if pos + 1 < |text| {
      assert text[pos..][2..] == text[pos + 2..];
    }
  }

  /** The closed literal from the quote at `pos` to the closing quote `e` characters on. */
  method LiteralStep(text: string, pos: nat, e: nat, level: Level, pool: Pool, draws: nat -> nat, n: nat)
    returns (piece: string, next: nat, drawn: nat)
    requires pos < |text| && text[pos] == '"' && ClosingQuote(text[pos..], 1) == Some(e)
    ensures pos < next <= |text|
    ensures Strings(text[pos..], level, pool, draws, n) == piece + Strings(text[next..], level, pool, draws, drawn)
  {
    next := pos + e + 1;
    StringsLiteralAt(text, pos, e, next, level, pool, draws, n);
    piece, drawn := EmitLiteral(text[pos..next], level, pool, draws, n);
  }

  /**
   * The turn at a quote: the literal it opens, or, when it is never
   * closed, the copy of the character after it. `stop` is set when the
   * quote is the last character, where that copy would take the
   * terminating NUL and read past it.
   */
  method QuoteStep(text: string, pos: nat, level: Level, pool: Pool, draws: nat -> nat, n: nat)
    returns (piece: string, next: nat, drawn: nat, stop: bool)
    requires pos < |text| && text[pos] == '"'
    ensures pos < next <= |text|
    ensures stop ==> piece == "" && Strings(text[pos..], level, pool, draws, n) == ""
    ensures !stop ==> Strings(text[pos..], level, pool, draws, n) == piece + Strings(text[next..], level, pool, draws, drawn)
  {
    var stringEnd := FindClosingQuote(text[pos..]);
    if stringEnd.Some? {
      piece, next, drawn := LiteralStep(text, pos, stringEnd.value, level, pool, draws, n);
      stop := false;
      return;
    }
    StringsUnclosedAt(text, pos, level, pool, draws, n);
    drawn := n;
    if pos + 1 == |text| {
      piece, next, stop := "", pos + 1, true;
    } else {
      piece, next, stop := [text[pos + 1]], pos + 2, false;
    }
  }

  /** One turn of the loop of advanced_string_obfuscation at `pos`, with `n` rand() calls made so far. */
  method StringsStep(text: string, pos: nat, level: Level, pool: Pool, draws: nat -> nat, n: nat)
    returns (piece: string, next: nat, drawn: nat, stop: bool)
    requires pos < |text|
    ensures pos < next <= |text|
    ensures stop ==> piece == "" && Strings(text[pos..], level, pool, draws, n) == ""
    ensures !stop ==> Strings(text[pos..], level, pool, draws, n) == piece + Strings(text[next..], level, pool, draws, drawn)
  {
    if text[pos] == '"' {
      piece, next, drawn, stop := QuoteStep(text, pos, level, pool, draws, n);
    } else {
      StringsCopyAt(text, pos, level, pool, draws, n);
      piece, next, drawn, stop := [text[pos]], pos + 1, n, false;
    }
  }

  /** The `while (*pos)` loop of advanced_string_obfuscation. */
  method RewriteStrings(text: string, level: Level, pool: Pool, draws: nat -> nat) returns (result: string)
    ensures result == Strings(text, level, pool, draws, 0)
  {
    ghost var total := Strings(text, level, pool, draws, 0);
    var pos := 0;
    var n := 0;
    result := "";
    while pos < |text|
      invariant pos <= |text|
      invariant result + Strings(text[pos..], level, pool, draws, n) == total
      decreases |text| - pos
    {
      var piece, next, drawn, stop := StringsStep(text, pos, level, pool, draws, n);
      if stop {
        assert result + "" == result;
        break;
      }
      Advance(result, piece, Strings(text[next..], level, pool, draws, drawn), Strings(text[pos..], level, pool, draws, n), total);
      result := result + piece;
      pos, n := next, drawn;
    }
  }

  // ---------------------------------------------------------------------
  // control_flow_flattening

  /** The parenthesis count from `i` on, starting inside one open parenthesis. */
  method ScanCondition(t: string, i: nat) returns (r: Option<nat>)
    requires i <= |t|
    ensures r == CloseParen(t, i, 1)
  {
    var parenCount := 1;
    var conditionEnd := i;
    while conditionEnd < |t| && parenCount > 0
      invariant i <= conditionEnd <= |t|
      invariant CloseParen(t, conditionEnd, parenCount) == CloseParen(t, i, 1)
      decreases |t| - conditionEnd
    {
      if t[conditionEnd] == '(' {
        parenCount := parenCount + 1;
      } else if t[conditionEnd] == ')' {
        parenCount := parenCount - 1;
      }
      conditionEnd := conditionEnd + 1;
    }
    r := if parenCount == 0 then Some(conditionEnd) else None;
  }

  /** A flattened "if (" whose condition closes `e` characters on. */
  lemma FlattenIfAt(text: string, pos: nat, e: nat, k: nat)
    requires pos <= |text| && StartsWith(text[pos..], "if (") && CloseParen(text[pos..], 4, 1) == Some(e)
    ensures 4 < e && pos + e <= |text|
    ensures Flatten(text[pos..], k) == Wrapper(k, text[pos + 4..pos + e - 1]) + Flatten(text[pos + e..], k + 1)
  {
    var t := text[pos..];
    assert t[4..e - 1] == text[pos + 4..pos + e - 1];
    assert t[e..] == text[pos + e..];
  }

  /** An "if (" whose condition never closes: the pass goes on four characters later. */
  lemma FlattenUnclosedAt(text: string, pos: nat, k: nat)
    requires pos <= |text| && StartsWith(text[pos..], "if (") && CloseParen(text[pos..], 4, 1).None?
    ensures pos + 4 == |text| ==> Flatten(text[pos..], k) == ""
    ensures pos + 4 < |text| ==> Flatten(text[pos..], k) == BraceOrChar(text[pos + 4]) + Flatten(text[pos + 5..], k)
  {
    if pos + 4 < |text| {
      assert text[pos..][5..] == text[pos + 5..];
    }
  }

  /** Any other character: a '}' closes the case, anything else is copied. */
  lemma FlattenCharAt(text: string, pos: nat, k: nat)
    requires pos < |text| && !StartsWith(text[pos..], "if (")
    ensures Flatten(text[pos..], k) == BraceOrChar(text[pos]) + Flatten(text[pos + 1..], k)
  {
    assert text[pos..][1..] == text[pos + 1..];
  }

  /** The `strncmp(pos, "}", 1)` test and the copy that follows it. */
  method BraceOrCopy(c: char) returns (piece: string)
    ensures piece == BraceOrChar(c)
  {
    if c == '}' {
      piece := "break; } ";
    } else {
      piece := [c];
    }
  }

  /**
   * The turn at an "if (": the flattening of its condition as number
   * `stateCounter`, or, when the condition never closes, the turn at the
   * character after the four skipped ones. `stop` is set when nothing is
   * left after them, where the copy would take the terminating NUL and
   * read past it.
   */
  method IfStep(text: string, pos: nat, stateCounter: nat) returns (piece: string, next: nat, counter: nat, stop: bool)
    requires pos < |text| && StartsWith(text[pos..], "if (")
    ensures pos < next <= |text|
    ensures stop ==> piece == "" && Flatten(text[pos..], stateCounter) == ""
    ensures !stop ==> Flatten(text[pos..], stateCounter) == piece + Flatten(text[next..], counter)
  {
    var conditionEnd := ScanCondition(text[pos..], 4);
    if conditionEnd.Some? {
      var e := conditionEnd.value;
      FlattenIfAt(text, pos, e, stateCounter);
      piece := Wrapper(stateCounter, text[pos + 4..pos + e - 1]);
      next, counter, stop := pos + e, stateCounter + 1, false;
      return;
    }
    FlattenUnclosedAt(text, pos, stateCounter);
    counter := stateCounter;
    if pos + 4 == |text| {
      piece, next, stop := "", pos + 4, true;
    } else {
      piece := BraceOrCopy(text[pos + 4]);
      next, stop := pos + 5, false;
    }
  }

  /** One turn of the loop of control_flow_flattening at `pos`, `stateCounter` conditions flattened so far. */
  method FlattenStep(text: string, pos: nat, stateCounter: nat) returns (piece: string, next: nat, counter: nat, stop: bool)
    requires pos < |text|
    ensures pos < next <= |text|
    ensures stop ==> piece == "" && Flatten(text[pos..], stateCounter) == ""
    ensures !stop ==> Flatten(text[pos..], stateCounter) == piece + Flatten(text[next..], counter)
  {
    if StartsWith(text[pos..], "if (") {
      piece, next, counter, stop := IfStep(text, pos, stateCounter);
    } else {
      FlattenCharAt(text, pos, stateCounter);
      piece := BraceOrCopy(text[pos]);
      next, counter, stop := pos + 1, stateCounter, false;
    }
  }

  /** The `while (*pos)` loop of control_flow_flattening, numbering the conditions from 0. */
  method RewriteFlatten(text: string) returns (result: string)
    ensures result == Flatten(text, 0)
  {
    ghost var total := Flatten(text, 0);
    var pos := 0;
    var stateCounter := 0;
    result := "";
    while pos < |text|
      invariant pos <= |text|
      invariant result + Flatten(text[pos..], stateCounter) == total
      decreases |text| - pos
    {
      var piece, next, counter, stop := FlattenStep(text, pos, stateCounter);
      if stop {
        assert result + "" == result;
        break;
      }
      Advance(result, piece, Flatten(text[next..], counter), Flatten(text[pos..], stateCounter), total);
      result := result + piece;
      pos, stateCounter := next, counter;
    }
  }

  // ---------------------------------------------------------------------
  // The buffer and the driver

  /** Three passes in a row, numbered from `i`. */
  lemma RunThree(a: Pass, b: Pass, c: Pass, step: (Pass, nat, string) -> string, i: nat, s: string)
    ensures Run([a, b, c], step, i, s) == step(c, i + 2, step(b, i + 1, step(a, i, s)))
  {
    RunSnoc([], a, step, i, s);
    assert [] + [a] == [a];
    RunSnoc([a], b, step, i, s);
    assert [a] + [b] == [a, b];
    RunSnoc([a, b], c, step, i, s);
    assert [a, b] + [c] == [a, b, c];
  }

  /** One pass, numbered `i`. */
  lemma RunOne(a: Pass, step: (Pass, nat, string) -> string, i: nat, s: string)
    ensures Run([a], step, i, s) == step(a, i, s)
  {
    RunSnoc([], a, step, i, s);
    assert [] + [a] == [a];
  }

  /** The rounds of the quantum loop, two passes per turn. */
  lemma QuantumRoundAt(k: nat)
    requires k < 3
    ensures |QuantumRounds| == 6
    ensures QuantumRounds[..2 * k + 2] == QuantumRounds[..2 * k] + [PolymorphicPass, MetamorphicPass]
  {
    if k == 0 {
      assert QuantumRounds[..2] == [PolymorphicPass, MetamorphicPass];
    } else if k == 1 {
      assert QuantumRounds[..4] == QuantumRounds[..2] + QuantumRounds[2..4];
    } else {
      assert QuantumRounds[..6] == QuantumRounds[..4] + QuantumRounds[4..6];
    }
  }

  /** The basic passes, one after the other. */
  lemma BasicRun(step: (Pass, nat, string) -> string, s0: string, s1: string, s2: string, s3: string)
    requires s1 == step(ImportPass, 0, s0)
    requires s2 == step(PolymorphicPass, 1, s1)
    requires s3 == step(MetamorphicPass, 2, s2)
    ensures Run(BasicPasses, step, 0, s0) == s3
  {
    RunThree(ImportPass, PolymorphicPass, MetamorphicPass, step, 0, s0);
  }

  /** One turn of the quantum loop extends the rounds run so far by two passes. */
  lemma QuantumTurn(step: (Pass, nat, string) -> string, call: nat, k: nat, n: nat, s0: string, before: string, middle: string, after: string)
    requires k < 3 && n == call + 2 * k
    requires before == Run(QuantumRounds[..2 * k], step, call, s0)
    requires middle == step(PolymorphicPass, n, before)
    requires after == step(MetamorphicPass, n + 1, middle)
    ensures after == Run(QuantumRounds[..2 * k + 2], step, call, s0)
  {
    QuantumRoundAt(k);
    var done := QuantumRounds[..2 * k];
    RunSnoc(done, PolymorphicPass, step, call, s0);
    RunSnoc(done + [PolymorphicPass], MetamorphicPass, step, call, s0);
    assert done + [PolymorphicPass] + [MetamorphicPass] == QuantumRounds[..2 * k + 2];
  }

  /** One turn of the quantum loop, as the two pass functions see it. */
  lemma QuantumTurnOf(env: Env, call: nat, k: nat, n: nat, s0: string, before: string, middle: string, after: string)
    requires k < 3 && n == call + 2 * k
    requires before == Run(QuantumRounds[..2 * k], Step(env), call, s0)
    requires middle == if env.c.polymorphic then Polymorphic(before) else before
    requires after == if env.c.metamorphic then env.other(MetamorphicPass, n + 1, middle) else middle
    ensures after == Run(QuantumRounds[..2 * k + 2], Step(env), call, s0)
  {
    StepPolymorphic(env, n, before);
    StepMetamorphic(env, n + 1, middle);
    QuantumTurn(Step(env), call, k, n, s0, before, middle, after);
  }

  /** The five blocks of the driver, run one after the other, are the whole schedule. */
  lemma RunStages(step: (Pass, nat, string) -> string, a: seq<Pass>, b: seq<Pass>, c: seq<Pass>, d: seq<Pass>, e: seq<Pass>,
                  s0: string, s1: string, s2: string, s3: string, s4: string, s5: string)
    requires s1 == Run(a, step, 0, s0)
    requires s2 == Run(b, step, |a|, s1)
    requires s3 == Run(c, step, |a| + |b|, s2)
    requires s4 == Run(d, step, |a| + |b| + |c|, s3)
    requires s5 == Run(e, step, |a| + |b| + |c| + |d|, s4)
    ensures Run(a + b + c + d + e, step, 0, s0) == s5
  {
    RunAppend(a, b, step, 0, s0);
    RunAppend(a + b, c, step, 0, s0);
    RunAppend(a + b + c, d, step, 0, s0);
    RunAppend(a + b + c + d, e, step, 0, s0);
  }

  /** A block the level skips runs no pass. */
  lemma RunNone(step: (Pass, nat, string) -> string, i: nat, s: string)
    ensures Run([], step, i, s) == s
  {
  }

  /** The blocks of the driver, each run from where the previous one stopped, are the whole schedule. */
  lemma DriverRun(step: (Pass, nat, string) -> string, c: Config, i1: nat, i2: nat, i3: nat, i4: nat,
                  s0: string, s1: string, s2: string, s3: string, s4: string, s5: string)
    requires s1 == Run(BasicPasses, step, 0, s0)
    requires i1 == |BasicPasses| && s2 == Run(NormalPasses(c), step, i1, s1)
    requires i2 == i1 + |NormalPasses(c)| && s3 == Run(MediumPasses(c), step, i2, s2)
    requires i3 == i2 + |MediumPasses(c)| && s4 == Run(ExtremePasses(c), step, i3, s3)
    requires i4 == i3 + |ExtremePasses(c)| && s5 == Run(QuantumPasses(c), step, i4, s4)
    ensures s5 == Run(Schedule(c), step, 0, s0)
  {
    RunStages(step, BasicPasses, NormalPasses(c), MediumPasses(c), ExtremePasses(c), QuantumPasses(c),
              s0, s1, s2, s3, s4, s5);
  }

  /**
   * The buffer `content` that read_file returns: the text before its NUL
   * and the number of bytes it was allocated with. Every pass writes its
   * result back with Store, which grows the buffer first when the result
   * and its NUL do not fit.
   */
  class Source {
    var content: string
    var capacity: nat

    /** The text and its NUL fit in the buffer. */
    ghost predicate Fits()
      reads this
    {
      |content| + 1 <= capacity
    }

    /** read_file: malloc(length + 1) for the bytes of the file and a NUL. */
    constructor ReadFile(text: string)
      ensures content == text && capacity == |text| + 1 && Fits()
    {
      content := text;
      capacity := |text| + 1;
    }

    /**
     * strcpy(content, result), the write-back every pass ends with, after
     * growing the buffer when the result would not fit. The C buffer keeps
     * read_file's size, so there the copy can overflow at any pass.
     */
    method Store(result: string)
      modifies this
      ensures content == result && Fits()
      ensures capacity == if |result| + 1 <= old(capacity) then old(capacity) else |result| + 1
    {
      if |result| + 1 > capacity {
        capacity := |result| + 1;
      }
      content := result;
    }

    /** import_obfuscation: the fixed header, then the text after its leading includes. */
    method ImportObfuscation()
      modifies this
      ensures content == Imported(old(content)) && Fits()
    {
      var rest := SkipIncludeLines(content);
      Store(ImportHeader + rest);
    }

    method PolymorphicTransform(config: Config)
      requires Fits()
      modifies this
      ensures content == (if config.polymorphic then Polymorphic(old(content)) else old(content)) && Fits()
    {
      if !config.polymorphic {
        return;
      }
      var result := RewritePolymorphic(content);
      Store(result);
    }

    /** anti_debug_functions, which runs whatever the anti-debug switch says. */
    method AntiDebugFunctions()
      modifies this
      ensures content == AntiDebug(old(content)) && Fits()
    {
      var result := AntiDebugPrelude;
      var mainPos := IndexOf(content, "main(");
      if mainPos.Some? {
        var m := mainPos.value;
        result := result + content[..m] + MainHeader;
        var pos := FindBodyStart(content, m);
        result := result + content[pos..];
        ConcatAssoc(AntiDebugPrelude, content[..m], MainHeader);
        ConcatAssoc(AntiDebugPrelude, content[..m] + MainHeader, content[pos..]);
      } else {
        result := result + content;
      }
      Store(result);
    }

    method AdvancedStringObfuscation(config: Config, pool: Pool, draws: nat -> nat)
      requires Fits()
      modifies this
      ensures content == (if config.stringObfuscation then Strings(old(content), config.level, pool, draws, 0) else old(content))
      ensures Fits()
    {
      if !config.stringObfuscation {
        return;
      }
      var result := RewriteStrings(content, config.level, pool, draws);
      Store(result);
    }

    method ControlFlowFlattening(config: Config)
      requires Fits()
      modifies this
      ensures content == (if config.controlFlow then Flatten(old(content), 0) else old(content)) && Fits()
    {
      if !config.controlFlow {
        return;
      }
      var result := RewriteFlatten(content);
      Store(result);
    }

    /** metamorphic_engine: its flag check; the rewrite, which draws on rand(), is `env.other`. */
    method MetamorphicEngine(env: Env, call: nat)
      requires Fits()
      modifies this
      ensures content == (if env.c.metamorphic then env.other(MetamorphicPass, call, old(content)) else old(content))
      ensures Fits()
    {
      if !env.c.metamorphic {
        return;
      }
      Store(env.other(MetamorphicPass, call, content));
    }

    /** opaque_predicates, which has no flag check; its rewrite is `env.other`. */
    method OpaquePredicates(env: Env, call: nat)
      modifies this
      ensures content == env.other(OpaquePass, call, old(content)) && Fits()
    {
      Store(env.other(OpaquePass, call, content));
    }

    /** arithmetic_obfuscation_advanced: its flag check; its rewrite is `env.other`. */
    method ArithmeticObfuscationAdvanced(env: Env, call: nat)
      requires Fits()
      modifies this
      ensures content == (if env.c.arithmetic then env.other(ArithmeticPass, call, old(content)) else old(content))
      ensures Fits()
    {
      if !env.c.arithmetic {
        return;
      }
      Store(env.other(ArithmeticPass, call, content));
    }

    /** dead_code_injection: the junk-code flag check; its rewrite is `env.other`. */
    method DeadCodeInjection(env: Env, call: nat)
      requires Fits()
      modifies this
      ensures content == (if env.c.junkCode then env.other(DeadCodePass, call, old(content)) else old(content))
      ensures Fits()
    {
      if !env.c.junkCode {
        return;
      }
      Store(env.other(DeadCodePass, call, content));
    }

    /** The basic transformations: imports, polymorphic, metamorphic. */
    method BasicStage(env: Env)
      modifies this
      ensures content == Run(BasicPasses, Step(env), 0, old(content)) && Fits()
    {
      ghost var s0 := content;
      ImportObfuscation();
      StepImport(env, 0, s0);
      ghost var s1 := content;
      PolymorphicTransform(env.c);
      StepPolymorphic(env, 1, s1);
      ghost var s2 := content;
      MetamorphicEngine(env, 2);
      StepMetamorphic(env, 2, s2);
      BasicRun(Step(env), s0, s1, s2, content);
    }

    /** The OBFUSCATION_NORMAL block: the anti-debug code, then the strings when their flag is set. */
    method NormalStage(env: Env, call: nat)
      requires Fits()
      modifies this
      ensures content == Run(NormalPasses(env.c), Step(env), call, old(content)) && Fits()
    {
      ghost var s0 := content;
      AntiDebugFunctions();
      StepAntiDebug(env, call, s0);
      RunOne(AntiDebugPass, Step(env), call, s0);
      if env.c.stringObfuscation {
        ghost var s1 := content;
        AdvancedStringObfuscation(env.c, env.pool, env.draws);
        StepStrings(env, call + 1, s1);
        RunSnoc([AntiDebugPass], StringPass, Step(env), call, s0);
      } else {
        assert NormalPasses(env.c) == [AntiDebugPass];
      }
    }

    /** The OBFUSCATION_MEDIUM block, run when the level is at least medium: flattening, opaque predicates, arithmetic when its flag is set. */
    method MediumStage(env: Env, call: nat)
      requires Fits()
      modifies this
      ensures content == Run(MediumPasses(env.c), Step(env), call, old(content)) && Fits()
    {
      if env.c.level.Rank() < 2 {
        RunNone(Step(env), call, content);
        return;
      }
      ghost var s0 := content;
      ControlFlowFlattening(env.c);
      ghost var s1 := content;
      OpaquePredicates(env, call + 1);
      StepFlatten(env, call, s0);
      StepOpaque(env, call + 1, s1);
      RunSnoc([], ControlFlowPass, Step(env), call, s0);
      assert [] + [ControlFlowPass] == [ControlFlowPass];
      RunSnoc([ControlFlowPass], OpaquePass, Step(env), call, s0);
      assert [ControlFlowPass] + [OpaquePass] == [ControlFlowPass, OpaquePass];
      if env.c.arithmetic {
        ghost var s2 := content;
        ArithmeticObfuscationAdvanced(env, call + 2);
        StepArithmetic(env, call + 2, s2);
        RunSnoc([ControlFlowPass, OpaquePass], ArithmeticPass, Step(env), call, s0);
      } else {
        assert MediumPasses(env.c) == [ControlFlowPass, OpaquePass];
      }
    }

    /** The OBFUSCATION_EXTREME block, run when the level is at least extreme: dead code. */
    method ExtremeStage(env: Env, call: nat)
      requires Fits()
      modifies this
      ensures content == Run(ExtremePasses(env.c), Step(env), call, old(content)) && Fits()
    {
      if env.c.level.Rank() < 3 {
        RunNone(Step(env), call, content);
        return;
      }
      ghost var s0 := content;
      DeadCodeInjection(env, call);
      StepDeadCode(env, call, s0);
      RunOne(DeadCodePass, Step(env), call, s0);
    }

    /** One turn of the quantum loop: a polymorphic and a metamorphic round, numbered `n` and `n + 1`. */
    method QuantumRound(env: Env, call: nat, k: nat, ghost s0: string)
      requires Fits() && k < 3
      requires content == Run(QuantumRounds[..2 * k], Step(env), call, s0)
      modifies this
      ensures content == Run(QuantumRounds[..2 * k + 2], Step(env), call, s0) && Fits()
    {
      ghost var before := content;
      var n := call + 2 * k;
      PolymorphicTransform(env.c);
      ghost var middle := content;
      MetamorphicEngine(env, n + 1);
      QuantumTurnOf(env, call, k, n, s0, before, middle, content);
    }

    /** The loop `for (int i = 0; i < 3; i++)` of the quantum block. */
    method QuantumLoop(env: Env, call: nat)
      requires Fits()
      modifies this
      ensures content == Run(QuantumRounds, Step(env), call, old(content)) && Fits()
    {
      ghost var s0 := content;
      var i := 0;
      QuantumRoundAt(0);
      while i < 3
        invariant 0 <= i <= 3 && Fits()
        invariant content == Run(QuantumRounds[..2 * i], Step(env), call, s0)
      {
        QuantumRound(env, call, i, s0);
        i := i + 1;
      }
      assert QuantumRounds[..6] == QuantumRounds;
    }

    /** The OBFUSCATION_QUANTUM block, run at the quantum level: three more polymorphic and metamorphic rounds. */
    method QuantumStage(env: Env, call: nat)
      requires Fits()
      modifies this
      ensures content == Run(QuantumPasses(env.c), Step(env), call, old(content)) && Fits()
    {
      if env.c.level.Rank() < 4 {
        RunNone(Step(env), call, content);
      } else {
        QuantumLoop(env, call);
      }
    }

    /**
     * obfuscate_code_advanced on the text read: the blocks in order, each
     * from the level it needs. The level is at least OBFUSCATION_NORMAL,
     * so the anti-debug block always runs.
     */
    method ObfuscateCodeAdvanced(env: Env)
      requires Fits()
      modifies this
      ensures content == Obfuscated(env, old(content)) && Fits()
    {
      var c := env.c;
      ghost var s0 := content;
      BasicStage(env);
      ghost var s1 := content;
      var done := |BasicPasses|;
      ghost var d1 := done;
      NormalStage(env, done);
      ghost var s2 := content;
      done := done + |NormalPasses(c)|;
      ghost var d2 := done;
      MediumStage(env, done);
      ghost var s3 := content;
      done := done + |MediumPasses(c)|;
      ghost var d3 := done;
      ExtremeStage(env, done);
      ghost var s4 := content;
      done := done + |ExtremePasses(c)|;
      ghost var d4 := done;
      QuantumStage(env, done);
      DriverRun(Step(env), c, d1, d2, d3, d4, s0, s1, s2, s3, s4, content);
    }
  }
}
