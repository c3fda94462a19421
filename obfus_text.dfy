/**
 * The deterministic text rewrites of the C obfuscator, each as a
 * function from the text before the pass to the text after it. Every
 * pass reads the text left to right from a position `pos`; the functions
 * below recurse on the text still to be read, so a call on `t[i..]` is
 * the rest of the pass once `pos` has reached `i`.
 */
module ObfusText {
  import opened Wrappers
  import opened Text

  // ---------------------------------------------------------------------
  // Configuration

  /** The obfuscation levels, OBFUSCATION_NORMAL (1) to OBFUSCATION_QUANTUM (4). */
  datatype Level = Normal | Medium | Extreme | Quantum
  {
    function Rank(): (r: nat)
      ensures 1 <= r <= 4
    {
      match this
      case Normal => 1
      case Medium => 2
      case Extreme => 3
      case Quantum => 4
    }
  }

  /** The `-l` argument: only 1 to 4 are accepted. */
  function LevelOf(n: int): (r: Option<Level>)
    ensures r.Some? <==> 1 <= n <= 4
    ensures r.Some? ==> r.value.Rank() == n
  {
    if n == 1 then Some(Normal)
    else if n == 2 then Some(Medium)
    else if n == 3 then Some(Extreme)
    else if n == 4 then Some(Quantum)
    else None
  }

  /** config_t without the file names; each flag is one command-line switch. */
  datatype Config = Config(
    level: Level,
    stringObfuscation: bool,
    controlFlow: bool,
    arithmetic: bool,
    junkCode: bool,
    polymorphic: bool,
    metamorphic: bool,
    antiDebug: bool)

  /** main's starting configuration: the normal level and every switch off. */
  const DefaultConfig := Config(Normal, false, false, false, false, false, false, false)

  /** One flag switch of the command line: the flag whose letter it is goes on. */
  function WithSwitch(c: Config, opt: char): Config {
    c.(stringObfuscation := c.stringObfuscation || opt == 's',
       controlFlow := c.controlFlow || opt == 'c',
       arithmetic := c.arithmetic || opt == 'a',
       junkCode := c.junkCode || opt == 'j',
       polymorphic := c.polymorphic || opt == 'p',
       metamorphic := c.metamorphic || opt == 'm',
       antiDebug := c.antiDebug || opt == 'd')
  }

  /** The configuration after the switches `opts`, taken in order. */
  function Switches(opts: seq<char>): Config {
    if |opts| == 0 then DefaultConfig else WithSwitch(Switches(opts[..|opts| - 1]), opts[|opts| - 1])
  }

  /** Each flag is on exactly when its letter is among the switches; the level stays normal. */
  lemma {:induction false} SwitchesSetFlags(opts: seq<char>)
    ensures Switches(opts).level == Normal
    ensures Switches(opts).stringObfuscation <==> 's' in opts
    ensures Switches(opts).controlFlow <==> 'c' in opts
    ensures Switches(opts).arithmetic <==> 'a' in opts
    ensures Switches(opts).junkCode <==> 'j' in opts
    ensures Switches(opts).polymorphic <==> 'p' in opts
    ensures Switches(opts).metamorphic <==> 'm' in opts
    ensures Switches(opts).antiDebug <==> 'd' in opts
    decreases |opts|
  {
    if |opts| > 0 {
      var init, last := opts[..|opts| - 1], opts[|opts| - 1];
      SwitchesSetFlags(init);
      assert opts == init + [last];
      InSnoc(init, last);
    }
  }

  lemma InSnoc(init: seq<char>, last: char)
    ensures forall x :: x in init + [last] <==> x in init || x == last
  {
  }

  // ---------------------------------------------------------------------
  // polymorphic_transform

  /** The text `polymorphic_transform` writes for the rest `t` of its input. */
  function Polymorphic(t: string): (r: string)
    decreases |t|
  {
    if |t| == 0 then ""
    else if StartsWith(t, "if (") then "if ((" + Polymorphic(t[4..])
    else if StartsWith(t, "++") then " += 1" + Polymorphic(t[2..])
    else if StartsWith(t, "--") then " -= 1" + Polymorphic(t[2..])
    else if StartsWith(t, "for (") && IndexOf(t, "){").Some? then
      var e := IndexOf(t, "){").value;
      ForHeaderBeforeBrace(t);
      "{ int " + t[5..e] + "; while(1) {" + Polymorphic(t[e + 2..])
    else [t[0]] + Polymorphic(t[1..])
  }

  /** The first "){" after "for (" lies after the five characters of "for (". */
  lemma ForHeaderBeforeBrace(t: string)
    requires StartsWith(t, "for (") && IndexOf(t, "){").Some?
    ensures 5 <= IndexOf(t, "){").value
  {
    var e := IndexOf(t, "){").value;
    assert forall j :: 0 <= j < 5 ==> t[j] != ')' by {
      assert forall j :: 0 <= j < 5 ==> t[j] == t[..5][j];
    }
    assert t[e] == ')' by {
      assert t[e..e + 2] == "){";
    }
  }

  /** "if (" gains a parenthesis and the scan goes on after it. */
  lemma PolymorphicIf(rest: string)
    ensures Polymorphic("if (" + rest) == "if ((" + Polymorphic(rest)
  {
    var t := "if (" + rest;
    assert t[..4] == "if (" && t[4..] == rest;
  }

  /** "++" becomes " += 1"; the inserted text is not read again. */
  lemma PolymorphicIncrement(rest: string)
    ensures Polymorphic("++" + rest) == " += 1" + Polymorphic(rest)
  {
    var t := "++" + rest;
    assert t[..2] == "++" && t[2..] == rest;
    assert !StartsWith(t, "if (") by {
      if |t| >= 4 { assert t[..4][0] == '+'; }
    }
  }

  /** "--" becomes " -= 1". */
  lemma PolymorphicDecrement(rest: string)
    ensures Polymorphic("--" + rest) == " -= 1" + Polymorphic(rest)
  {
    var t := "--" + rest;
    assert t[..2] == "--" && t[2..] == rest;
    assert !StartsWith(t, "if (") by {
      if |t| >= 4 { assert t[..4][0] == '-'; }
    }
    assert !StartsWith(t, "++") by {
      assert t[..2][0] == '-';
    }
  }

  /** `IndexOf` is the first occurrence. */
  lemma IndexOfFirst(s: string, p: string, i: nat)
    requires OccursAt(s, p, i)
    requires forall j :: 0 <= j < i ==> !OccursAt(s, p, j)
    ensures IndexOf(s, p) == Some(i)
  {
  }

  /**
   * "for (" up to the first "){" becomes "{ int " + the text between +
   * "; while(1) {", and the scan resumes after "){".
   */
  lemma PolymorphicFor(inner: string, rest: string)
    requires !Contains(inner + ")", "){")
    ensures Polymorphic("for (" + inner + "){" + rest) == "{ int " + inner + "; while(1) {" + Polymorphic(rest)
  {
    var t := "for (" + inner + "){" + rest;
    var e := 5 + |inner|;
    assert t[e..e + 2] == "){";
    forall j | 0 <= j < e
      ensures !OccursAt(t, "){", j)
    {
      NoEarlyClose(inner, rest, j);
    }
    IndexOfFirst(t, "){", e);
    assert t[..5] == "for (";
    NotStartingWith(t, "if (");
    NotStartingWith(t, "++");
    NotStartingWith(t, "--");
    assert t[5..e] == inner && t[e + 2..] == rest;
  }

  /** Before the "){" that closes a for header with no "){" inside, there is none. */
  lemma NoEarlyClose(inner: string, rest: string, j: nat)
    requires !Contains(inner + ")", "){") && j < 5 + |inner|
    ensures !OccursAt("for (" + inner + "){" + rest, "){", j)
  {
    var t := "for (" + inner + "){" + rest;
    var u := inner + ")";
    if j < 5 {
      assert t[j] == "for ("[j];
    } else {
      ContainsIff(u, "){");
      assert t[j..j + 2] == u[j - 5..j - 3];
      assert !OccursAt(u, "){", j - 5);
    }
  }

  /** A text whose first character differs from the pattern's does not start with it. */
  lemma NotStartingWith(t: string, p: string)
    requires |t| > 0 && |p| > 0 && t[0] != p[0]
    ensures !StartsWith(t, p)
  {
  }

  /** A character other than 'i', '+', '-' and 'f' is copied. */
  lemma PolymorphicCopiesChar(t: string)
    requires |t| > 0 && t[0] != 'i' && t[0] != '+' && t[0] != '-' && t[0] != 'f'
    ensures Polymorphic(t) == [t[0]] + Polymorphic(t[1..])
  {
    NotStartingWith(t, "if (");
    NotStartingWith(t, "++");
    NotStartingWith(t, "--");
    NotStartingWith(t, "for (");
  }

  /** "for (" with no "){" anywhere after it is copied as it stands. */
  lemma PolymorphicForUnclosed(rest: string)
    requires !Contains("for (" + rest, "){")
    ensures Polymorphic("for (" + rest) == "for (" + Polymorphic(rest)
  {
    var t := "for (" + rest;
    NotStartingWith(t, "if (");
    NotStartingWith(t, "++");
    NotStartingWith(t, "--");
    assert Polymorphic(t) == [t[0]] + Polymorphic(t[1..]);
    assert t[1..] == "or (" + rest;
    PolymorphicCopiesPlain("or (", rest);
    ConcatAssoc("f", "or (", Polymorphic(rest));
  }

  /** A run of characters none of which starts a pattern is copied as it stands. */
  lemma {:induction false} PolymorphicCopiesPlain(p: string, rest: string)
    requires forall i :: 0 <= i < |p| ==> p[i] != 'i' && p[i] != '+' && p[i] != '-' && p[i] != 'f'
    ensures Polymorphic(p + rest) == p + Polymorphic(rest)
    decreases |p|
  {
    if |p| > 0 {
      var t := p + rest;
      assert t[0] == p[0] && t[1..] == p[1..] + rest;
      PolymorphicCopiesChar(t);
      PolymorphicCopiesPlain(p[1..], rest);
      ConcatAssoc([p[0]], p[1..], Polymorphic(rest));
      assert [p[0]] + p[1..] == p;
    } else {
      assert p + rest == rest;
    }
  }

  /** None of the patterns the polymorphic pass rewrites occurs in `t`. */
  predicate NoPolymorphicPattern(t: string) {
    forall j :: 0 <= j < |t| ==> !OccursAt(t, "if (", j) && !OccursAt(t, "++", j) && !OccursAt(t, "--", j) && !OccursAt(t, "for (", j)
  }

  /** An occurrence in the tail is an occurrence one further in the text. */
  lemma OccursInTail(t: string, p: string, j: int)
    requires |t| > 0 && OccursAt(t[1..], p, j)
    ensures OccursAt(t, p, j + 1)
  {
    assert t[j + 1..j + 1 + |p|] == t[1..][j..j + |p|];
  }

  /** Text without any of the patterns comes out of the pass unchanged. */
  lemma {:induction false} PolymorphicIdentity(t: string)
    requires NoPolymorphicPattern(t)
    ensures Polymorphic(t) == t
    decreases |t|
  {
    if |t| > 0 {
      assert !OccursAt(t, "if (", 0) && !OccursAt(t, "++", 0) && !OccursAt(t, "--", 0) && !OccursAt(t, "for (", 0);
      forall j | 0 <= j < |t| - 1 ensures !OccursAt(t[1..], "if (", j) && !OccursAt(t[1..], "++", j) && !OccursAt(t[1..], "--", j) && !OccursAt(t[1..], "for (", j) {
        if OccursAt(t[1..], "if (", j) { OccursInTail(t, "if (", j); }
        if OccursAt(t[1..], "++", j) { OccursInTail(t, "++", j); }
        if OccursAt(t[1..], "--", j) { OccursInTail(t, "--", j); }
        if OccursAt(t[1..], "for (", j) { OccursInTail(t, "for (", j); }
      }
      PolymorphicIdentity(t[1..]);
    }
  }

  /** The pass never shortens the text; this is what the 3 MiB result buffer has to hold. */
  lemma {:induction false} PolymorphicGrows(t: string)
    ensures |Polymorphic(t)| >= |t|
    decreases |t|
  {
    if |t| == 0 {
    } else if StartsWith(t, "if (") {
      PolymorphicGrows(t[4..]);
    } else if StartsWith(t, "++") || StartsWith(t, "--") {
      PolymorphicGrows(t[2..]);
    } else if StartsWith(t, "for (") && IndexOf(t, "){").Some? {
      var e := IndexOf(t, "){").value;
      ForHeaderBeforeBrace(t);
      PolymorphicGrows(t[e + 2..]);
    } else {
      PolymorphicGrows(t[1..]);
    }
  }

  /** The quantum level runs the pass again: the parenthesis it inserted is read as text then. */
  lemma PolymorphicTwice()
    ensures Polymorphic("if (") == "if (("
    ensures Polymorphic(Polymorphic("if (")) == "if ((("
  {
    PolymorphicIf("");
    assert "if (" + "" == "if (";
    PolymorphicIf("(");
    assert "if (" + "(" == "if ((";
    PolymorphicIdentity("");
    assert Polymorphic("(") == "(" by {
      PolymorphicCopiesChar("(");
      assert "("[1..] == "";
    }
  }

  // ---------------------------------------------------------------------
  // import_obfuscation

  /** The fixed block written in front of the text. */
  const ImportHeader: string :=
    "/* OBFUSCATED HEADERS */\n"
    + "#define __INCLUDE_STDIO\n"
    + "#define __INCLUDE_STDLIB\n"
    + "#define __INCLUDE_STRING\n"
    + "#define __INCLUDE_TIME\n"
    + "#define __INCLUDE_CTYPE\n"
    + "#define __INCLUDE_UNISTD\n"
    + "#define __INCLUDE_SYS_STAT\n"
    + "#define __INCLUDE_STDINT\n"
    + "#define __INCLUDE_MATH\n\n"
    + "#ifdef __INCLUDE_STDIO\n#include <stdio.h>\n#endif\n"
    + "#ifdef __INCLUDE_STDLIB\n#include <stdlib.h>\n#endif\n"
    + "#ifdef __INCLUDE_STRING\n#include <string.h>\n#endif\n"
    + "#ifdef __INCLUDE_TIME\n#include <time.h>\n#endif\n"
    + "#ifdef __INCLUDE_CTYPE\n#include <ctype.h>\n#endif\n"
    + "#ifdef __INCLUDE_UNISTD\n#include <unistd.h>\n#endif\n"
    + "#ifdef __INCLUDE_SYS_STAT\n#include <sys/stat.h>\n#endif\n"
    + "#ifdef __INCLUDE_STDINT\n#include <stdint.h>\n#endif\n"
    + "#ifdef __INCLUDE_MATH\n#include <math.h>\n#endif\n\n"

  /** What is left once the leading "#include" lines are skipped. */
  function SkipIncludes(t: string): (r: string)
    ensures |r| <= |t| && r == t[|t| - |r|..]
    decreases |t|
  {
    if StartsWith(t, "#include") then
      match FirstIndexOf(t, '\n')
      case Some(e) => SkipIncludes(t[e + 1..])
      case None => t
    else t
  }

  /** The lines the scan skips, each with its newline. */
  function SkippedLines(t: string): (lines: seq<string>)
    decreases |t|
  {
    if StartsWith(t, "#include") then
      match FirstIndexOf(t, '\n')
      case Some(e) => [t[..e + 1]] + SkippedLines(t[e + 1..])
      case None => []
    else []
  }

  /** The text of a list of lines. */
  function Concat(lines: seq<string>): string {
    if |lines| == 0 then "" else lines[0] + Concat(lines[1..])
  }

  /** One line that starts with "#include" and ends at its only newline. */
  predicate IncludeLine(line: string) {
    StartsWith(line, "#include") && line[|line| - 1] == '\n' && '\n' !in line[..|line| - 1]
  }

  /** The text `import_obfuscation` leaves: the header and the text after the leading includes. */
  function Imported(t: string): string {
    ImportHeader + SkipIncludes(t)
  }

  /** The line the scan skips is one "#include" line. */
  lemma SkippedLineShape(t: string, e: nat)
    requires StartsWith(t, "#include") && FirstIndexOf(t, '\n') == Some(e)
    ensures IncludeLine(t[..e + 1])
  {
    var line := t[..e + 1];
    assert line[|line| - 1] == '\n';
    assert forall i :: 0 <= i < e ==> line[..|line| - 1][i] == t[i];
    assert e + 1 >= 8;
    assert line[..8] == t[..8];
  }

  /** One skipped line: both scans go on after its newline. */
  lemma ImportStep(t: string, e: nat)
    requires StartsWith(t, "#include") && FirstIndexOf(t, '\n') == Some(e)
    ensures t == t[..e + 1] + t[e + 1..]
    ensures SkipIncludes(t) == SkipIncludes(t[e + 1..])
    ensures SkippedLines(t) == [t[..e + 1]] + SkippedLines(t[e + 1..])
  {
  }

  /** The input is the skipped lines followed by what is kept. */
  lemma {:induction false} ImportShape(t: string)
    ensures t == Concat(SkippedLines(t)) + SkipIncludes(t)
    decreases |t|
  {
    if StartsWith(t, "#include") {
      match FirstIndexOf(t, '\n')
      case Some(e) =>
        var line := t[..e + 1];
        var tail := t[e + 1..];
        ImportStep(t, e);
        ConcatCons(line, SkippedLines(tail));
        ImportShape(tail);
        Regroup(line, Concat(SkippedLines(tail)), SkipIncludes(tail));
      case None =>
    }
  }

  lemma ConcatCons(line: string, lines: seq<string>)
    ensures Concat([line] + lines) == line + Concat(lines)
  {
    assert ([line] + lines)[1..] == lines;
  }

  lemma Regroup(a: string, b: string, c: string)
    ensures (a + b) + c == a + (b + c)
  {
  }

  /**
   * The kept text starts with something other than "#include", or with
   * an "#include" that no newline ends.
   */
  lemma {:induction false} ImportStops(t: string)
    ensures StartsWith(SkipIncludes(t), "#include") ==> '\n' !in SkipIncludes(t)
    decreases |t|
  {
    if StartsWith(t, "#include") {
      match FirstIndexOf(t, '\n')
      case Some(e) =>
        ImportStep(t, e);
        ImportStops(t[e + 1..]);
      case None =>
    }
  }

  /** Every skipped line is one "#include" line ended by its newline. */
  lemma {:induction false} SkippedAreIncludeLines(t: string)
    ensures forall i :: 0 <= i < |SkippedLines(t)| ==> IncludeLine(SkippedLines(t)[i])
    decreases |t|
  {
    if StartsWith(t, "#include") {
      match FirstIndexOf(t, '\n')
      case Some(e) =>
        var tail := t[e + 1..];
        var lines := SkippedLines(t);
        assert lines == [t[..e + 1]] + SkippedLines(tail);
        SkippedLineShape(t, e);
        SkippedAreIncludeLines(tail);
        forall i | 0 <= i < |lines| ensures IncludeLine(lines[i]) {
          if i > 0 {
            assert lines[i] == SkippedLines(tail)[i - 1];
          }
        }
      case None =>
    }
  }

  /** Skipping again skips nothing more, unless an unfinished include line is left. */
  lemma SkipIncludesStops(t: string)
    ensures StartsWith(SkipIncludes(t), "#include") || SkipIncludes(SkipIncludes(t)) == SkipIncludes(t)
  {
  }

  /** A text that starts with something other than "#include" keeps all of itself after the header. */
  lemma ImportKeepsBody(t: string)
    requires !StartsWith(t, "#include")
    ensures Imported(t) == ImportHeader + t
  {
  }

  /** read_file's buffer for a text: its length and the terminating NUL. */
  function ReadBufferSize(t: string): nat {
    |t| + 1
  }

  /** strcpy(content, result) writes the whole rewritten text and a NUL into read_file's buffer. */
  lemma ImportOverflowsReadBuffer(t: string)
    requires !StartsWith(t, "#include")
    ensures |Imported(t)| + 1 > ReadBufferSize(t)
  {
    assert ImportHeader[0] == '/';
  }

  // ---------------------------------------------------------------------
  // anti_debug_functions

  /** The detection code written in front of everything. */
  const AntiDebugPrelude: string :=
    "/* ANTI-DEBUG PROTECTION */\n"
    + "#ifdef __linux__\n"
    + "static inline void __obfuscator_anti_debug(void) {\n"
    + "    volatile char *debug_path = \"/proc/self/status\";\n"
    + "    FILE *f = fopen(debug_path, \"r\");\n"
    + "    if (f) {\n"
    + "        char buf[1024];\n"
    + "        while (fgets(buf, sizeof(buf), f)) {\n"
    + "            if (strstr(buf, \"TracerPid:\") && buf[strlen(\"TracerPid:\")] != '0') {\n"
    + "                exit(1);\n"
    + "            }\n"
    + "        }\n"
    + "        fclose(f);\n"
    + "    }\n"
    + "}\n"
    + "#define __OBFUSCATOR_CHECK_DEBUG() __obfuscator_anti_debug()\n"
    + "#else\n"
    + "#define __OBFUSCATOR_CHECK_DEBUG()\n"
    + "#endif\n\n"

  /** The main header written where the first "main(" was. */
  const MainHeader: string := "int main(int argc, char **argv) {\n__OBFUSCATOR_CHECK_DEBUG();"

  /** Where copying resumes: just after the first '{' from `i` on, or the end of the text. */
  function AfterBrace(t: string, i: nat): (r: nat)
    requires i <= |t|
    ensures i <= r <= |t|
    ensures forall j :: i <= j < r - 1 ==> t[j] != '{'
    ensures r == |t| || (i < r && t[r - 1] == '{')
    ensures r == |t| && (r == i || t[r - 1] != '{') ==> forall j :: i <= j < |t| ==> t[j] != '{'
    decreases |t| - i
  {
    if i == |t| then i else if t[i] == '{' then i + 1 else AfterBrace(t, i + 1)
  }

  /** What follows the prelude: the text with its main header replaced. */
  function MainRewrite(t: string): string {
    match IndexOf(t, "main(")
    case None => t
    case Some(m) => RewriteAt(t, m)
  }

  /** The text with the "main(" at `m` and everything up to its '{' replaced by the header. */
  function RewriteAt(t: string, m: nat): string
    requires m <= |t|
  {
    t[..m] + MainHeader + t[AfterBrace(t, m)..]
  }

  /** The text `anti_debug_functions` leaves. */
  function AntiDebug(t: string): (r: string)
    ensures |r| >= |AntiDebugPrelude| && r[..|AntiDebugPrelude|] == AntiDebugPrelude
  {
    AntiDebugPrelude + MainRewrite(t)
  }

  /** With no "main(", the prelude is followed by the whole text. */
  lemma AntiDebugWithoutMain(t: string)
    requires !Contains(t, "main(")
    ensures MainRewrite(t) == t
  {
  }

  /**
   * The write-back of anti_debug_functions, strcpy(content, result), is
   * longer than the text it replaces whenever that text has no "main(":
   * the prelude comes in front of the whole text.
   */
  lemma AntiDebugLengthens(t: string)
    requires !Contains(t, "main(")
    ensures |AntiDebug(t)| == |AntiDebugPrelude| + |t| > |t|
  {
    AntiDebugWithoutMain(t);
  }

  /** A leading include line is the first line the import scan skips. */
  lemma SkipOneIncludeLine(inc: string, body: string)
    requires IncludeLine(inc) && !StartsWith(body, "#include")
    ensures SkipIncludes(inc + body) == body
  {
    var t := inc + body;
    var e := |inc| - 1;
    assert t[..8] == inc[..8];
    assert t[e] == '\n';
    assert forall j :: 0 <= j < e ==> t[j] == inc[..e][j] != '\n';
    assert FirstIndexOf(t, '\n') == Some(e);
    assert t[e + 1..] == body;
  }

  /**
   * Every pass copies its result back into read_file's buffer, which keeps
   * the size of the original text. A file whose one include line is as
   * long as the import header: the import result fits the buffer exactly,
   * and the anti-debug pass, which runs on every configuration, then
   * writes past it.
   */
  lemma AntiDebugOverflowsReadBuffer(inc: string, body: string)
    requires IncludeLine(inc) && |inc| == |ImportHeader|
    requires !StartsWith(body, "#include") && !Contains(ImportHeader + body, "main(")
    ensures |Imported(inc + body)| + 1 == ReadBufferSize(inc + body)
    ensures |AntiDebug(Imported(inc + body))| + 1 > ReadBufferSize(inc + body)
  {
    SkipOneIncludeLine(inc, body);
    AntiDebugLengthens(Imported(inc + body));
  }

  /**
   * With a "main(" at `m` whose body opens at `b`, the text from "main("
   * to the brace is replaced by the fixed main header and the check.
   */
  lemma AntiDebugWithMain(t: string, m: nat, b: nat)
    requires m < b < |t| && t[b] == '{'
    requires forall j :: m <= j < b ==> t[j] != '{'
    ensures RewriteAt(t, m) == t[..m] + MainHeader + t[b + 1..]
  {
    AfterBraceAt(t, m, b);
  }

  /** A "main(" with no '{' after it: everything from "main(" on is replaced by the header alone. */
  lemma AntiDebugMainWithoutBody(t: string, m: nat)
    requires m <= |t| && '{' !in t[m..]
    ensures RewriteAt(t, m) == t[..m] + MainHeader
  {
    assert forall j :: m <= j < |t| ==> t[j] == t[m..][j - m];
    assert AfterBrace(t, m) == |t|;
  }

  lemma {:induction false} AfterBraceAt(t: string, i: nat, b: nat)
    requires i <= b < |t| && t[b] == '{'
    requires forall j :: i <= j < b ==> t[j] != '{'
    ensures AfterBrace(t, i) == b + 1
    decreases b - i
  {
    if i < b {
      AfterBraceAt(t, i + 1, b);
    }
  }

  /**
   * The usual "int main(...) {" keeps its "int " and gains a second one
   * from the header: the output reads "int int main(int argc, ...".
   */
  lemma ReturnTypeDoubled(params: string, rest: string)
    requires forall j :: 0 <= j < |params| ==> params[j] != '{'
    ensures MainRewrite("int main(" + params + "{" + rest) == "int " + MainHeader + rest
  {
    var t := "int main(" + params + "{" + rest;
    var b := 9 + |params|;
    assert t[..9] == "int main(";
    assert t[4..9] == "main(" && OccursAt(t, "main(", 4);
    forall j | 0 <= j < 4 ensures !OccursAt(t, "main(", j) {
      assert t[j] == "int "[j];
    }
    IndexOfFirst(t, "main(", 4);
    assert t[b] == '{';
    forall j | 4 <= j < b ensures t[j] != '{' {
      if j < 9 {
        assert t[j] == "main("[j - 4];
      } else {
        assert t[j] == params[j - 9];
      }
    }
    AntiDebugWithMain(t, 4, b);
    assert t[..4] == "int " && t[b + 1..] == rest;
  }

  // ---------------------------------------------------------------------
  // advanced_string_obfuscation

  /** The closing quote of a literal: the first '"' from `j` on that no backslash precedes. */
  function ClosingQuote(t: string, j: nat): (r: Option<nat>)
    requires 1 <= j <= |t|
    ensures r.Some? ==> j <= r.value < |t| && t[r.value] == '"' && t[r.value - 1] != '\\'
    ensures r.None? ==> forall i :: j <= i < |t| ==> t[i] != '"' || t[i - 1] == '\\'
    ensures r.Some? ==> forall i :: j <= i < r.value ==> t[i] != '"' || t[i - 1] == '\\'
    decreases |t| - j
  {
    if j == |t| then None
    else if t[j] == '"' && t[j - 1] != '\\' then Some(j)
    else ClosingQuote(t, j + 1)
  }

  /** The byte the C code sees for a character (`unsigned char c`). */
  function ByteOf(c: char): (b: bv8)
    ensures c as int < 256 ==> b as int == c as int
  {
    (c as int % 256) as bv8
  }

  /** The number emitted for one byte: ((c ^ XOR_KEY) + ADDITIVE_KEY) * MULTIPLICATIVE_KEY. */
  function EncodeByte(b: bv8): (r: nat)
    ensures 0x29 * 0x4D <= r <= (255 + 0x29) * 0x4D
    ensures r % 0x4D == 0
  {
    ((b ^ 0xAA) as nat + 0x29) * 0x4D
  }

  /** The inverse the decrypt macro has to compute. */
  function DecodeByte(n: nat): bv8 {
    var x := n / 0x4D - 0x29;
    if 0 <= x < 256 then (x as bv8) ^ 0xAA else 0
  }

  lemma DecodeEncodeByte(b: bv8)
    ensures DecodeByte(EncodeByte(b)) == b
  {
    var y := b ^ 0xAA;
    assert EncodeByte(b) == (y as nat + 0x29) * 0x4D;
    DecodeMultiple(y);
    XorTwice(b);
  }

  lemma DecodeMultiple(y: bv8)
    ensures DecodeByte((y as nat + 0x29) * 0x4D) == y ^ 0xAA
  {
    DivideBack(y as nat);
    BackToByte(y);
  }

  lemma DivideBack(v: nat)
    ensures ((v + 0x29) * 0x4D) / 0x4D - 0x29 == v
  {
    MultipleDivides(v + 0x29);
  }

  lemma BackToByte(y: bv8)
    ensures (y as int) as bv8 == y
  {
  }

  lemma XorTwice(b: bv8)
    ensures (b ^ 0xAA) ^ 0xAA == b
  {
  }

  lemma MultipleDivides(k: nat)
    ensures (k * 0x4D) / 0x4D == k
  {
  }

  /** Different bytes are emitted as different numbers. */
  lemma EncodeByteInjective(a: bv8, b: bv8)
    ensures EncodeByte(a) == EncodeByte(b) <==> a == b
  {
    if EncodeByte(a) == EncodeByte(b) {
      DecodeEncodeByte(a);
      DecodeEncodeByte(b);
    }
  }

  /** The numbers emitted for the characters of a literal, without the closing 0. */
  function Codes(inner: string): (r: seq<nat>)
    ensures |r| == |inner|
    ensures forall i :: 0 <= i < |r| ==> r[i] == EncodeByte(ByteOf(inner[i]))
  {
    seq(|inner|, i requires 0 <= i < |inner| => EncodeByte(ByteOf(inner[i])))
  }

  /** The decrypt side: one byte per number up to the first 0. */
  function DecodeCodes(codes: seq<nat>): seq<bv8>
    decreases |codes|
  {
    if |codes| == 0 || codes[0] == 0 then [] else [DecodeByte(codes[0])] + DecodeCodes(codes[1..])
  }

  /** The bytes of a text. */
  function Bytes(s: string): (r: seq<bv8>)
    ensures |r| == |s| && forall i :: 0 <= i < |s| ==> r[i] == ByteOf(s[i])
  {
    seq(|s|, i requires 0 <= i < |s| => ByteOf(s[i]))
  }

  /** No emitted number is 0, so the trailing 0 ends the list and the bytes come back. */
  lemma {:induction false} DecodeCodesRoundTrip(inner: string)
    ensures DecodeCodes(Codes(inner) + [0]) == Bytes(inner)
    decreases |inner|
  {
    if |inner| > 0 {
      var c := Codes(inner) + [0];
      assert c[0] == EncodeByte(ByteOf(inner[0]));
      DecodeEncodeByte(ByteOf(inner[0]));
      assert c[1..] == Codes(inner[1..]) + [0];
      DecodeCodesRoundTrip(inner[1..]);
      assert Bytes(inner) == [ByteOf(inner[0])] + Bytes(inner[1..]);
    } else {
      assert Codes(inner) + [0] == [0];
    }
  }

  /** The "%d," list of the numbers. */
  function CodesText(codes: seq<nat>): string {
    if |codes| == 0 then "" else Decimal(codes[0]) + "," + CodesText(codes[1..])
  }

  /** The EXTREME rewrite of one literal; `tag` is rand() % 1000. */
  function EncodedLiteral(literal: string, tag: nat): string
    requires |literal| >= 2
  {
    "__DECRYPT_STR" + Decimal(tag) + "(" + CodesText(Codes(literal[1..|literal| - 1])) + "0)"
  }

  /** How many rand() values one literal uses at each level. */
  function DrawsPerLiteral(level: Level): nat {
    match level
    case Normal => 0
    case Medium => 2
    case _ => 1
  }

  /**
   * What one literal (its quotes included) becomes. `draws(n)` is the
   * n-th value rand() returns in this pass; `pool` is the string pool.
   */
  function LiteralText(literal: string, level: Level, pool: seq<string>, draws: nat -> nat, n: nat): string
    requires |literal| >= 2 && |pool| > 0
  {
    match level
    case Normal => literal
    case Medium => "\"" + pool[draws(n) % |pool|] + "\" \"" + pool[draws(n + 1) % |pool|] + "\""
    case _ => EncodedLiteral(literal, draws(n) % 1000)
  }

  /** The text `advanced_string_obfuscation` writes for the rest `t` of its input. */
  function Strings(t: string, level: Level, pool: seq<string>, draws: nat -> nat, n: nat): string
    requires |pool| > 0
    decreases |t|
  {
    if |t| == 0 then ""
    else if t[0] == '"' then
      match ClosingQuote(t, 1)
      case Some(e) =>
        LiteralText(t[..e + 1], level, pool, draws, n)
          + Strings(t[e + 1..], level, pool, draws, n + DrawsPerLiteral(level))
      case None =>
        if |t| == 1 then "" else [t[1]] + Strings(t[2..], level, pool, draws, n)
    else [t[0]] + Strings(t[1..], level, pool, draws, n)
  }

  /** The text with every '"' taken out. */
  function WithoutQuotes(s: string): (r: string)
    ensures |r| <= |s|
  {
    if |s| == 0 then "" else (if s[0] == '"' then "" else [s[0]]) + WithoutQuotes(s[1..])
  }

  lemma {:induction false} WithoutQuotesAppend(a: string, b: string)
    ensures WithoutQuotes(a + b) == WithoutQuotes(a) + WithoutQuotes(b)
    decreases |a|
  {
    if |a| == 0 {
      assert a + b == b;
    } else {
      assert (a + b)[1..] == a[1..] + b;
      WithoutQuotesAppend(a[1..], b);
    }
  }

  /** `output` is `input` with some '"' characters taken out. */
  predicate OnlyQuotesDropped(input: string, output: string) {
    |output| <= |input| && WithoutQuotes(output) == WithoutQuotes(input)
  }

  /** A character kept in front of text that only lost quotes. */
  lemma KeepOne(c: char, input: string, output: string)
    requires OnlyQuotesDropped(input, output)
    ensures OnlyQuotesDropped([c] + input, [c] + output)
  {
    assert ([c] + input)[1..] == input;
    assert ([c] + output)[1..] == output;
  }

  /** A closed literal copied in front of text that only lost quotes. */
  lemma KeepLiteral(lit: string, input: string, output: string)
    requires OnlyQuotesDropped(input, output)
    ensures OnlyQuotesDropped(lit + input, lit + output)
  {
    WithoutQuotesAppend(lit, input);
    WithoutQuotesAppend(lit, output);
  }

  /** A quote dropped in front of text that only lost quotes. */
  lemma DropQuote(input: string, output: string)
    requires OnlyQuotesDropped(input, output)
    ensures OnlyQuotesDropped("\"" + input, output)
  {
    assert ("\"" + input)[1..] == input;
  }

  /** The three steps of the pass at the normal level. */
  lemma NormalStringsStep(t: string, pool: seq<string>, draws: nat -> nat, n: nat)
    requires |pool| > 0 && |t| > 0
    ensures t[0] != '"' ==> Strings(t, Normal, pool, draws, n) == [t[0]] + Strings(t[1..], Normal, pool, draws, n)
    ensures t[0] == '"' && ClosingQuote(t, 1).Some? ==>
      var e := ClosingQuote(t, 1).value;
      Strings(t, Normal, pool, draws, n) == t[..e + 1] + Strings(t[e + 1..], Normal, pool, draws, n)
    ensures t[0] == '"' && ClosingQuote(t, 1).None? && |t| > 1 ==>
      Strings(t, Normal, pool, draws, n) == [t[1]] + Strings(t[2..], Normal, pool, draws, n)
  {
  }

  /**
   * At the normal level the pass only ever deletes characters, and only
   * '"' characters: literals and all other text are copied as they are.
   */
  lemma {:induction false} NormalStringsOnlyDropQuotes(t: string, pool: seq<string>, draws: nat -> nat, n: nat)
    requires |pool| > 0
    ensures OnlyQuotesDropped(t, Strings(t, Normal, pool, draws, n))
    decreases |t|
  {
    if |t| > 0 {
      NormalStringsStep(t, pool, draws, n);
      if t[0] != '"' {
        NormalStringsOnlyDropQuotes(t[1..], pool, draws, n);
        KeepOne(t[0], t[1..], Strings(t[1..], Normal, pool, draws, n));
        assert t == [t[0]] + t[1..];
      } else if ClosingQuote(t, 1).Some? {
        var e := ClosingQuote(t, 1).value;
        NormalStringsOnlyDropQuotes(t[e + 1..], pool, draws, n);
        KeepLiteral(t[..e + 1], t[e + 1..], Strings(t[e + 1..], Normal, pool, draws, n));
        assert t == t[..e + 1] + t[e + 1..];
      } else if |t| > 1 {
        NormalStringsOnlyDropQuotes(t[2..], pool, draws, n);
        KeepOne(t[1], t[2..], Strings(t[2..], Normal, pool, draws, n));
        DropQuote(t[1..], [t[1]] + Strings(t[2..], Normal, pool, draws, n));
        assert t == "\"" + ([t[1]] + t[2..]);
      } else {
        assert t == "\"";
      }
    }
  }

  /** Text without any '"' passes through every level unchanged. */
  lemma {:induction false} StringsWithoutQuotes(t: string, level: Level, pool: seq<string>, draws: nat -> nat, n: nat)
    requires |pool| > 0 && '"' !in t
    ensures Strings(t, level, pool, draws, n) == t
    decreases |t|
  {
    if |t| > 0 {
      assert t[0] in t;
      assert forall c :: c in t[1..] ==> c in t;
      StringsWithoutQuotes(t[1..], level, pool, draws, n);
    }
  }

  /** A literal that contains neither quotes nor backslashes is copied whole at the normal level. */
  lemma NormalCopiesLiteral(body: string, rest: string, pool: seq<string>, draws: nat -> nat, n: nat)
    requires |pool| > 0 && '"' !in body && '\\' !in body
    ensures Strings("\"" + body + "\"" + rest, Normal, pool, draws, n)
      == "\"" + body + "\"" + Strings(rest, Normal, pool, draws, n)
  {
    var t := "\"" + body + "\"" + rest;
    var e := |body| + 1;
    ClosingQuoteAt(t, 1, e);
    assert t[..e + 1] == "\"" + body + "\"" && t[e + 1..] == rest;
  }

  lemma {:induction false} ClosingQuoteAt(t: string, j: nat, e: nat)
    requires 1 <= j <= e < |t| && t[e] == '"' && t[e - 1] != '\\'
    requires forall i :: j <= i < e ==> t[i] != '"'
    ensures ClosingQuote(t, j) == Some(e)
    decreases e - j
  {
    if j < e {
      ClosingQuoteAt(t, j + 1, e);
    }
  }

  /** An opening quote that is never closed disappears; the text after it is kept. */
  lemma UnclosedQuoteDropped(rest: string, level: Level, pool: seq<string>, draws: nat -> nat, n: nat)
    requires |pool| > 0 && |rest| > 0 && '"' !in rest
    ensures Strings("\"" + rest, level, pool, draws, n) == rest
  {
    var t := "\"" + rest;
    assert forall i :: 1 <= i < |t| ==> t[i] == rest[i - 1];
    assert ClosingQuote(t, 1).None?;
    assert t[2..] == rest[1..];
    assert Strings(t, level, pool, draws, n) == [t[1]] + Strings(rest[1..], level, pool, draws, n);
    assert forall c :: c in rest[1..] ==> c in rest;
    StringsWithoutQuotes(rest[1..], level, pool, draws, n);
    assert [rest[0]] + rest[1..] == rest;
  }

  // ---------------------------------------------------------------------
  // control_flow_flattening

  /** Where the condition of an "if (" ends: just after the ')' that brings the depth to 0. */
  function CloseParen(t: string, i: nat, depth: nat): (r: Option<nat>)
    requires i <= |t|
    ensures r.Some? ==> i <= r.value <= |t|
    ensures r.Some? && depth > 0 ==> i < r.value && t[r.value - 1] == ')'
    decreases |t| - i
  {
    if depth == 0 then Some(i)
    else if i == |t| then None
    else
      var d := if t[i] == '(' then depth + 1 else if t[i] == ')' then depth - 1 else depth;
      CloseParen(t, i + 1, d)
  }

  /** The flattened form of "if (" `cond` ")" with state variable number `k`. */
  function Wrapper(k: nat, cond: string): string {
    var n := Decimal(k);
    "int __state_" + n + " = 0; do { "
      + "if (" + cond
      + ") { __state_" + n + " = 1; break; } "
      + "if (rand() % 1000 > 998) { __state_" + n + " = 2; break; } "
      + "if (rand() % 1000 > 998) { __state_" + n + " = 3; break; } "
      + "} while(0); switch(__state_" + n + ") { case 1: "
  }

  /** The text one character becomes when it is not part of an "if (". */
  function BraceOrChar(c: char): (r: string)
    ensures c != '}' ==> r == [c]
  {
    if c == '}' then "break; } " else [c]
  }

  /**
   * The text `control_flow_flattening` writes for the rest `t` of its
   * input when `k` conditions have been flattened so far.
   */
  function Flatten(t: string, k: nat): string
    decreases |t|
  {
    if |t| == 0 then ""
    else if StartsWith(t, "if (") then
      match CloseParen(t, 4, 1)
      case Some(e) => Wrapper(k, t[4..e - 1]) + Flatten(t[e..], k + 1)
      case None => if |t| == 4 then "" else BraceOrChar(t[4]) + Flatten(t[5..], k)
    else BraceOrChar(t[0]) + Flatten(t[1..], k)
  }

  /** Every '}' replaced, every other character kept. */
  function ReplaceBraces(t: string): (r: string)
    ensures '}' !in t ==> r == t
  {
    if |t| == 0 then "" else BraceOrChar(t[0]) + ReplaceBraces(t[1..])
  }

  /** Without any "if (", flattening only replaces the braces, whatever the counter. */
  lemma {:induction false} FlattenBracesOnly(t: string, k: nat)
    requires forall j :: !OccursAt(t, "if (", j)
    ensures Flatten(t, k) == ReplaceBraces(t)
    decreases |t|
  {
    if |t| > 0 {
      assert !OccursAt(t, "if (", 0);
      forall j ensures !OccursAt(t[1..], "if (", j) {
        if OccursAt(t[1..], "if (", j) { OccursInTail(t, "if (", j); }
      }
      FlattenBracesOnly(t[1..], k);
    }
  }

  lemma {:induction false} CloseParenPlain(t: string, i: nat, e: nat)
    requires i <= e < |t| && t[e] == ')'
    requires forall j :: i <= j < e ==> t[j] != '(' && t[j] != ')'
    ensures CloseParen(t, i, 1) == Some(e + 1)
    decreases e - i
  {
    if i < e {
      CloseParenPlain(t, i + 1, e);
    }
  }

  /** A condition without parentheses is wrapped with the current number, and the count goes up by one. */
  lemma FlattenIf(cond: string, rest: string, k: nat)
    requires '(' !in cond && ')' !in cond
    ensures Flatten("if (" + cond + ")" + rest, k) == Wrapper(k, cond) + Flatten(rest, k + 1)
  {
    var t := "if (" + cond + ")" + rest;
    var e := 4 + |cond|;
    assert t[..4] == "if (";
    forall j | 4 <= j < e ensures t[j] != '(' && t[j] != ')' {
      assert t[j] == cond[j - 4];
    }
    CloseParenPlain(t, 4, e);
    assert t[4..e] == cond && t[e + 1..] == rest;
  }

  /** A position that starts no "if (" contributes its one character. */
  lemma FlattenChar(t: string, k: nat)
    requires |t| > 0 && !StartsWith(t, "if (")
    ensures Flatten(t, k) == BraceOrChar(t[0]) + Flatten(t[1..], k)
  {
  }

  /** Text without an 'i' cannot start an "if (": flattening only replaces its braces. */
  lemma {:induction false} FlattenPlainPrefix(x: string, rest: string, k: nat)
    requires 'i' !in x
    ensures Flatten(x + rest, k) == ReplaceBraces(x) + Flatten(rest, k)
    decreases |x|
  {
    if |x| > 0 {
      var t := x + rest;
      assert t[0] == x[0];
      NotStartingWith(t, "if (");
      FlattenChar(t, k);
      assert t[1..] == x[1..] + rest;
      assert forall c :: c in x[1..] ==> c in x;
      FlattenPlainPrefix(x[1..], rest, k);
      var b, r, f := BraceOrChar(x[0]), ReplaceBraces(x[1..]), Flatten(rest, k);
      assert ReplaceBraces(x) == b + r;
      ConcatAssoc(b, r, f);
    } else {
      assert x + rest == rest;
    }
  }

  /** Conditions, each followed by the text up to the next "if (". */
  function IfChain(conds: seq<string>, gaps: seq<string>): string
    requires |conds| == |gaps|
  {
    if |conds| == 0 then "" else "if (" + conds[0] + ")" + gaps[0] + IfChain(conds[1..], gaps[1..])
  }

  /** The wrappers numbered from `k` on, with the braces between them replaced. */
  function FlatChain(conds: seq<string>, gaps: seq<string>, k: nat): string
    requires |conds| == |gaps|
  {
    if |conds| == 0 then "" else Wrapper(k, conds[0]) + ReplaceBraces(gaps[0]) + FlatChain(conds[1..], gaps[1..], k + 1)
  }

  /** The i-th closed "if (" from the start of the pass is wrapped with __state_(i-1). */
  lemma {:induction false} FlattenNumbersConditions(conds: seq<string>, gaps: seq<string>, k: nat)
    requires |conds| == |gaps|
    requires forall i :: 0 <= i < |conds| ==> '(' !in conds[i] && ')' !in conds[i]
    requires forall i :: 0 <= i < |gaps| ==> 'i' !in gaps[i]
    ensures Flatten(IfChain(conds, gaps), k) == FlatChain(conds, gaps, k)
    decreases |conds|
  {
    if |conds| > 0 {
      var rest := IfChain(conds[1..], gaps[1..]);
      assert IfChain(conds, gaps) == "if (" + conds[0] + ")" + (gaps[0] + rest);
      FlattenIf(conds[0], gaps[0] + rest, k);
      FlattenPlainPrefix(gaps[0], rest, k + 1);
      FlattenNumbersConditions(conds[1..], gaps[1..], k + 1);
      var w, g, f := Wrapper(k, conds[0]), ReplaceBraces(gaps[0]), FlatChain(conds[1..], gaps[1..], k + 1);
      assert FlatChain(conds, gaps, k) == w + g + f;
      ConcatAssoc(w, g, f);
    }
  }

  /** An "if (" whose parenthesis never closes disappears; what follows it is kept. */
  lemma UnclosedIfDropped(rest: string, k: nat)
    requires |rest| > 0 && ')' !in rest && '}' !in rest
    requires forall j :: !OccursAt(rest, "if (", j)
    ensures Flatten("if (" + rest, k) == rest
  {
    var t := "if (" + rest;
    assert t[..4] == "if (" && t[4..] == rest && t[5..] == rest[1..];
    CloseParenNever(t, 4, 1);
    forall j ensures !OccursAt(rest[1..], "if (", j) {
      if OccursAt(rest[1..], "if (", j) { OccursInTail(rest, "if (", j); }
    }
    FlattenBracesOnly(rest[1..], k);
    assert forall c :: c in rest[1..] ==> c in rest;
  }

  lemma {:induction false} CloseParenNever(t: string, i: nat, depth: nat)
    requires i <= |t| && depth > 0
    requires forall j :: i <= j < |t| ==> t[j] != ')'
    ensures CloseParen(t, i, depth).None?
    decreases |t| - i
  {
    if i < |t| {
      CloseParenNever(t, i + 1, if t[i] == '(' then depth + 1 else depth);
    }
  }

  // ---------------------------------------------------------------------
  // The order of the passes in obfuscate_code_advanced

  /** The passes, the deterministic ones and those that depend on rand(). */
  datatype Pass =
    | ImportPass | PolymorphicPass | MetamorphicPass | AntiDebugPass | StringPass
    | ControlFlowPass | OpaquePass | ArithmeticPass | DeadCodePass

  /** The extra polymorphic and metamorphic rounds of the quantum level. */
  const QuantumRounds: seq<Pass> :=
    [PolymorphicPass, MetamorphicPass, PolymorphicPass, MetamorphicPass, PolymorphicPass, MetamorphicPass]

  /** The passes every run starts with. */
  const BasicPasses: seq<Pass> := [ImportPass, PolymorphicPass, MetamorphicPass]

  /** The block for OBFUSCATION_NORMAL and up, which every accepted level reaches. */
  function NormalPasses(c: Config): seq<Pass> {
    [AntiDebugPass] + (if c.stringObfuscation then [StringPass] else [])
  }

  /** The block for OBFUSCATION_MEDIUM and up. */
  function MediumPasses(c: Config): seq<Pass> {
    if c.level.Rank() >= 2 then [ControlFlowPass, OpaquePass] + (if c.arithmetic then [ArithmeticPass] else []) else []
  }

  /** The block for OBFUSCATION_EXTREME and up. */
  function ExtremePasses(c: Config): seq<Pass> {
    if c.level.Rank() >= 3 then [DeadCodePass] else []
  }

  /** The block for OBFUSCATION_QUANTUM. */
  function QuantumPasses(c: Config): seq<Pass> {
    if c.level.Rank() >= 4 then QuantumRounds else []
  }

  /** The passes the driver calls for a configuration, in calling order. */
  function Schedule(c: Config): (r: seq<Pass>) {
    BasicPasses + NormalPasses(c) + MediumPasses(c) + ExtremePasses(c) + QuantumPasses(c)
  }

  /** Imports first, then the polymorphic and metamorphic passes, then the anti-debug prelude whatever its flag. */
  lemma ScheduleStart(c: Config)
    ensures |Schedule(c)| >= 4
    ensures Schedule(c)[..4] == [ImportPass, PolymorphicPass, MetamorphicPass, AntiDebugPass]
  {
    var r := Schedule(c);
    var head: seq<Pass> := [ImportPass, PolymorphicPass, MetamorphicPass, AntiDebugPass];
    var rest := (if c.stringObfuscation then [StringPass] else []) + MediumPasses(c) + ExtremePasses(c) + QuantumPasses(c);
    assert r == head + rest;
  }

  /**
   * String obfuscation exactly when its flag is set; flattening and the
   * opaque predicates from the medium level on, the arithmetic pass there
   * when its flag is set; dead code from the extreme level on.
   */
  lemma ScheduleMembers(c: Config)
    ensures StringPass in Schedule(c) <==> c.stringObfuscation
    ensures ControlFlowPass in Schedule(c) <==> c.level.Rank() >= 2
    ensures OpaquePass in Schedule(c) <==> c.level.Rank() >= 2
    ensures ArithmeticPass in Schedule(c) <==> c.level.Rank() >= 2 && c.arithmetic
    ensures DeadCodePass in Schedule(c) <==> c.level.Rank() >= 3
  {
    var n, m, d, q := NormalPasses(c), MediumPasses(c), ExtremePasses(c), QuantumPasses(c);
    assert forall p :: p in Schedule(c) <==> p in BasicPasses || p in n || p in m || p in d || p in q;
  }

  /** How often `p` occurs in `ps`. */
  function CountPass(ps: seq<Pass>, p: Pass): (r: nat)
    ensures r <= |ps|
  {
    if |ps| == 0 then 0 else (if ps[0] == p then 1 else 0) + CountPass(ps[1..], p)
  }

  lemma {:induction false} CountPassAppend(a: seq<Pass>, b: seq<Pass>, p: Pass)
    ensures CountPass(a + b, p) == CountPass(a, p) + CountPass(b, p)
    decreases |a|
  {
    if |a| == 0 {
      assert a + b == b;
    } else {
      assert (a + b)[1..] == a[1..] + b;
      CountPassAppend(a[1..], b, p);
    }
  }

  /** Four polymorphic passes at the quantum level, one below it. */
  lemma SchedulePolymorphicCount(c: Config)
    ensures CountPass(Schedule(c), PolymorphicPass) == if c.level == Quantum then 4 else 1
  {
    var n, m, d, q := NormalPasses(c), MediumPasses(c), ExtremePasses(c), QuantumPasses(c);
    CountPassAppend(BasicPasses + n + m + d, q, PolymorphicPass);
    CountPassAppend(BasicPasses, n + m + d, PolymorphicPass);
    assert BasicPasses + n + m + d == BasicPasses + (n + m + d);
    BasicCount();
    MiddleCount(c);
    if c.level == Quantum {
      QuantumRoundsCount();
    }
  }

  /** The blocks between the basic passes and the quantum rounds have no polymorphic pass. */
  lemma MiddleCount(c: Config)
    ensures CountPass(NormalPasses(c) + MediumPasses(c) + ExtremePasses(c), PolymorphicPass) == 0
  {
    var n, m, d := NormalPasses(c), MediumPasses(c), ExtremePasses(c);
    CountPassAppend(n + m, d, PolymorphicPass);
    CountPassAppend(n, m, PolymorphicPass);
    CountPassAbsent(n, PolymorphicPass);
    CountPassAbsent(m, PolymorphicPass);
    CountPassAbsent(d, PolymorphicPass);
  }

  lemma BasicCount()
    ensures CountPass(BasicPasses, PolymorphicPass) == 1
  {
    assert BasicPasses[1..][1..] == [MetamorphicPass];
    CountPassAbsent([MetamorphicPass], PolymorphicPass);
  }

  lemma QuantumRoundsCount()
    ensures CountPass(QuantumRounds, PolymorphicPass) == 3
  {
    var pm := [PolymorphicPass, MetamorphicPass];
    assert CountPass(pm, PolymorphicPass) == 1 by {
      assert pm[1..] == [MetamorphicPass];
      assert [MetamorphicPass][1..] == [];
    }
    assert QuantumRounds == pm + (pm + pm);
    CountPassAppend(pm, pm, PolymorphicPass);
    CountPassAppend(pm, pm + pm, PolymorphicPass);
  }

  /** A pass that does not occur is counted zero times. */
  lemma {:induction false} CountPassAbsent(ps: seq<Pass>, p: Pass)
    requires p !in ps
    ensures CountPass(ps, p) == 0
    decreases |ps|
  {
    if |ps| > 0 {
      CountPassAbsent(ps[1..], p);
    }
  }

  /** The string pool: init_advanced_obfuscator always fills it. */
  type Pool = p: seq<string> | |p| > 0 witness [""]

  /**
   * What the passes see besides the text: the configuration, the string
   * pool, `draws(n)` the n-th rand() value of the string pass, and
   * `other(p, i, s)` what a pass that depends on rand() makes of `s` as
   * the `i`-th call of the driver.
   */
  datatype Env = Env(c: Config, pool: Pool, draws: nat -> nat, other: (Pass, nat, string) -> string)

  /** One pass applied to the text as the `i`-th call of the driver. */
  function ApplyPass(p: Pass, env: Env, i: nat, s: string): string {
    var c := env.c;
    match p
    case ImportPass => Imported(s)
    case PolymorphicPass => if c.polymorphic then Polymorphic(s) else s
    case MetamorphicPass => if c.metamorphic then env.other(p, i, s) else s
    case AntiDebugPass => AntiDebug(s)
    case StringPass => if c.stringObfuscation then Strings(s, c.level, env.pool, env.draws, 0) else s
    case ControlFlowPass => if c.controlFlow then Flatten(s, 0) else s
    case OpaquePass => env.other(p, i, s)
    case ArithmeticPass => if c.arithmetic then env.other(p, i, s) else s
    case DeadCodePass => if c.junkCode then env.other(p, i, s) else s
  }

  /** The passes applied in order by `step`, the first as call number `i`. */
  function Run(ps: seq<Pass>, step: (Pass, nat, string) -> string, i: nat, s: string): string
    decreases |ps|
  {
    if |ps| == 0 then s
    else step(ps[|ps| - 1], i + |ps| - 1, Run(ps[..|ps| - 1], step, i, s))
  }

  /** The step of the driver for an environment. */
  function Step(env: Env): (Pass, nat, string) -> string {
    (p: Pass, i: nat, s: string) => ApplyPass(p, env, i, s)
  }

  /** The whole driver: every scheduled pass, numbered from 0. */
  function Obfuscated(env: Env, s: string): string {
    Run(Schedule(env.c), Step(env), 0, s)
  }

  /** Running one more pass after a prefix of the schedule. */
  lemma RunSnoc(ps: seq<Pass>, p: Pass, step: (Pass, nat, string) -> string, i: nat, s: string)
    ensures Run(ps + [p], step, i, s) == step(p, i + |ps|, Run(ps, step, i, s))
  {
    assert (ps + [p])[..|ps|] == ps;
  }

  /** Running two schedules one after the other is running their concatenation. */
  lemma {:induction false} RunAppend(ps: seq<Pass>, qs: seq<Pass>, step: (Pass, nat, string) -> string, i: nat, s: string)
    ensures Run(ps + qs, step, i, s) == Run(qs, step, i + |ps|, Run(ps, step, i, s))
    decreases |qs|
  {
    if |qs| == 0 {
      assert ps + qs == ps;
    } else {
      var init := qs[..|qs| - 1];
      var last := qs[|qs| - 1];
      assert qs == init + [last];
      assert ps + qs == (ps + init) + [last];
      RunSnoc(ps + init, last, step, i, s);
      RunAppend(ps, init, step, i, s);
      RunSnoc(init, last, step, i + |ps|, Run(ps, step, i, s));
    }
  }

  /** Four passes in a row, each call numbered after the previous one. */
  lemma RunFour(a: Pass, b: Pass, c: Pass, d: Pass, step: (Pass, nat, string) -> string, s: string)
    ensures Run([a, b, c, d], step, 0, s) == step(d, 3, step(c, 2, step(b, 1, step(a, 0, s))))
  {
    RunSnoc([], a, step, 0, s);
    assert [] + [a] == [a];
    RunSnoc([a], b, step, 0, s);
    assert [a] + [b] == [a, b];
    RunSnoc([a, b], c, step, 0, s);
    assert [a, b] + [c] == [a, b, c];
    RunSnoc([a, b, c], d, step, 0, s);
    assert [a, b, c] + [d] == [a, b, c, d];
  }

  lemma DefaultSchedule()
    ensures Schedule(DefaultConfig) == [ImportPass, PolymorphicPass, MetamorphicPass, AntiDebugPass]
  {
  }

  /**
   * With the default switches the output does not depend on any random
   * pass: it is the anti-debug prelude over the text with its includes
   * replaced.
   */
  lemma DefaultObfuscation(s: string, env: Env)
    requires env.c == DefaultConfig
    ensures Obfuscated(env, s) == AntiDebug(Imported(s))
  {
    DefaultSchedule();
    RunFour(ImportPass, PolymorphicPass, MetamorphicPass, AntiDebugPass, Step(env), s);
    StepImport(env, 0, s);
    StepPolymorphic(env, 1, Imported(s));
    StepMetamorphic(env, 2, Imported(s));
    StepAntiDebug(env, 3, Imported(s));
  }

  // What one call of the driver's step does, pass by pass.

  lemma StepImport(env: Env, i: nat, s: string)
    ensures Step(env)(ImportPass, i, s) == Imported(s)
  {
  }

  lemma StepPolymorphic(env: Env, i: nat, s: string)
    ensures Step(env)(PolymorphicPass, i, s) == if env.c.polymorphic then Polymorphic(s) else s
  {
  }

  lemma StepMetamorphic(env: Env, i: nat, s: string)
    ensures Step(env)(MetamorphicPass, i, s) == if env.c.metamorphic then env.other(MetamorphicPass, i, s) else s
  {
  }

  lemma StepAntiDebug(env: Env, i: nat, s: string)
    ensures Step(env)(AntiDebugPass, i, s) == AntiDebug(s)
  {
  }

  lemma StepStrings(env: Env, i: nat, s: string)
    ensures Step(env)(StringPass, i, s)
         == if env.c.stringObfuscation then Strings(s, env.c.level, env.pool, env.draws, 0) else s
  {
  }

  lemma StepFlatten(env: Env, i: nat, s: string)
    ensures Step(env)(ControlFlowPass, i, s) == if env.c.controlFlow then Flatten(s, 0) else s
  {
  }

  lemma StepOpaque(env: Env, i: nat, s: string)
    ensures Step(env)(OpaquePass, i, s) == env.other(OpaquePass, i, s)
  {
  }

  lemma StepArithmetic(env: Env, i: nat, s: string)
    ensures Step(env)(ArithmeticPass, i, s) == if env.c.arithmetic then env.other(ArithmeticPass, i, s) else s
  {
  }

  lemma StepDeadCode(env: Env, i: nat, s: string)
    ensures Step(env)(DeadCodePass, i, s) == if env.c.junkCode then env.other(DeadCodePass, i, s) else s
  {
  }
}
