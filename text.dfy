/** Option type shared by every module of the model. */
module Wrappers {

  datatype Option<+T> = None | Some(value: T)
}

/**
 * Character-string helpers with the semantics of the C library calls
 * (strstr, strrchr, strncmp) and Python string methods (split, count)
 * the rest of the model is written against. A C string is modelled as
 * the characters before its terminating NUL.
 */
module Text {
  import opened Wrappers

  /** `p` occurs in `s` starting at index `i`. */
  predicate OccursAt(s: string, p: string, i: int) {
    0 <= i && i + |p| <= |s| && s[i..i + |p|] == p
  }

  /** strncmp(s, p, |p|) == 0, for a pattern without NUL. */
  predicate StartsWith(s: string, p: string) {
    |p| <= |s| && s[..|p|] == p
  }

  /** The first index at which `p` occurs in `s` (strstr). */
  function IndexOf(s: string, p: string): (r: Option<nat>)
    ensures r.Some? ==> OccursAt(s, p, r.value)
    ensures r.Some? ==> forall j :: 0 <= j < r.value ==> !OccursAt(s, p, j)
    ensures r.None? ==> forall j :: !OccursAt(s, p, j)
    decreases |s|
  {
    if |s| < |p| then
      assert forall j :: !OccursAt(s, p, j);
      None
    else if StartsWith(s, p) then Some(0)
    else
      var t := IndexOf(s[1..], p);
      assert forall j :: 1 <= j ==> (OccursAt(s, p, j) <==> OccursAt(s[1..], p, j - 1)) by {
        forall j | 1 <= j ensures OccursAt(s, p, j) <==> OccursAt(s[1..], p, j - 1) {
          if j + |p| <= |s| { TailSlice(s, j, |p|); }
        }
      }
      match t
      case None => None
      case Some(k) => Some(k + 1)
  }

  /** A slice of a text is the same slice, one place earlier, of its tail. */
  lemma TailSlice(s: string, j: nat, n: nat)
    requires 1 <= j && j + n <= |s|
    ensures s[j..j + n] == s[1..][j - 1..j - 1 + n]
  {
    var a := s[j..j + n];
    var b := s[1..][j - 1..j - 1 + n];
    assert forall k :: 0 <= k < n ==> a[k] == s[j + k] == b[k];
  }

  /** strstr(s, p) != NULL. */
  predicate Contains(s: string, p: string) {
    IndexOf(s, p).Some?
  }

  /** A text that contains a pattern contains the pattern's first character. */
  lemma ContainsFirstChar(s: string, p: string)
    requires |p| > 0
    ensures Contains(s, p) ==> p[0] in s
  {
    if Contains(s, p) {
      var i := IndexOf(s, p).value;
      assert s[i..i + |p|][0] == s[i];
    }
  }

  lemma ContainsIff(s: string, p: string)
    ensures Contains(s, p) <==> exists j :: OccursAt(s, p, j)
  {
  }

  /** A text with no two adjacent dots does not contain "..". */
  lemma NoDoubleDot(s: string)
    requires forall j :: 0 <= j < |s| - 1 ==> !(s[j] == '.' && s[j + 1] == '.')
    ensures !Contains(s, "..")
  {
    forall j | 0 <= j < |s| - 1 ensures !OccursAt(s, "..", j) {
      assert s[j..j + 2] == [s[j], s[j + 1]];
    }
  }

  /** Concatenation regroups. */
  lemma ConcatAssoc<T>(a: seq<T>, b: seq<T>, c: seq<T>)
    ensures a + (b + c) == a + b + c
  {
  }

  /** The last index holding `c` (strrchr). */
  function LastIndexOf(s: string, c: char): (r: Option<nat>)
    ensures r.Some? ==> r.value < |s| && s[r.value] == c
    ensures r.Some? ==> forall j :: r.value < j < |s| ==> s[j] != c
    ensures r.None? ==> c !in s
  {
    if |s| == 0 then None
    else if s[|s| - 1] == c then Some(|s| - 1)
    else LastIndexOf(s[..|s| - 1], c)
  }

  /** The first index holding `c` (strchr). */
  function FirstIndexOf(s: string, c: char): (r: Option<nat>)
    ensures r.Some? ==> r.value < |s| && s[r.value] == c
    ensures r.Some? ==> forall j :: 0 <= j < r.value ==> s[j] != c
    ensures r.None? ==> c !in s
  {
    if |s| == 0 then None
    else if s[0] == c then Some(0)
    else
      match FirstIndexOf(s[1..], c)
      case None => None
      case Some(k) => Some(k + 1)
  }

  /** The last occurrence is the one no later character repeats. */
  lemma LastIndexOfAt(s: string, c: char, i: nat)
    requires i < |s| && s[i] == c
    requires forall j :: i < j < |s| ==> s[j] != c
    ensures LastIndexOf(s, c) == Some(i)
  {
  }

  /** An octet. */
  newtype byte = x: int | 0 <= x < 256

  /** The text after the last '/', or the whole path when there is none. */
  function Basename(path: string): (r: string)
    ensures '/' !in r
    ensures |r| <= |path| && r == path[|path| - |r|..]
    ensures r == path || path[|path| - |r| - 1] == '/'
  {
    match LastIndexOf(path, '/')
    case None => path
    case Some(i) =>
      var k := i + 1;
      assert forall j :: 0 <= j < |path| - k ==> path[k..][j] == path[k + j];
      path[k..]
  }

  /** The number of occurrences of `c` in `s` (Python's str.count). */
  function CountChar(s: string, c: char): (n: nat)
    ensures n <= |s|
    ensures n == 0 <==> c !in s
  {
    if |s| == 0 then 0
    else CountChar(s[..|s| - 1], c) + (if s[|s| - 1] == c then 1 else 0)
  }

  lemma {:induction false} CountCharAppend(s: string, t: string, c: char)
    ensures CountChar(s + t, c) == CountChar(s, c) + CountChar(t, c)
    decreases |t|
  {
    if |t| == 0 {
      assert s + t == s;
    } else {
      assert (s + t)[..|s + t| - 1] == s + t[..|t| - 1];
      CountCharAppend(s, t[..|t| - 1], c);
    }
  }

  /** String concatenation of `parts` separated by `sep` (Python's sep.join). */
  function Join(parts: seq<string>, sep: string): string {
    if |parts| == 0 then ""
    else if |parts| == 1 then parts[0]
    else Join(parts[..|parts| - 1], sep) + sep + parts[|parts| - 1]
  }

  /** Python's str.split(sep) for a one-character separator. */
  function Split(s: string, sep: char): (r: seq<string>)
    ensures |r| == CountChar(s, sep) + 1
    ensures forall i :: 0 <= i < |r| ==> sep !in r[i]
  {
    if |s| == 0 then [""]
    else
      var init := Split(s[..|s| - 1], sep);
      if s[|s| - 1] == sep then init + [""]
      else init[..|init| - 1] + [init[|init| - 1] + [s[|s| - 1]]]
  }

  /** Splitting and re-joining on the same separator gives the text back. */
  lemma {:induction false} JoinSplit(s: string, sep: char)
    ensures Join(Split(s, sep), [sep]) == s
    decreases |s|
  {
    if |s| > 0 {
      var init := Split(s[..|s| - 1], sep);
      JoinSplit(s[..|s| - 1], sep);
      if s[|s| - 1] == sep {
        assert Split(s, sep)[..|Split(s, sep)| - 1] == init;
      } else {
        var r := Split(s, sep);
        if |init| == 1 {
          assert r == [init[0] + [s[|s| - 1]]];
        } else {
          assert r[..|r| - 1] == init[..|init| - 1];
          assert Join(init, [sep]) == Join(init[..|init| - 1], [sep]) + [sep] + init[|init| - 1];
        }
      }
    }
  }

  /** The decimal digit for 0..9. */
  function Digit(d: nat): (c: char)
    requires d < 10
    ensures '0' <= c <= '9' && c as int - '0' as int == d
  {
    ('0' as int + d) as char
  }

  /** printf("%d", n) for a natural number: no sign, no leading zero. */
  function Decimal(n: nat): (r: string)
    ensures |r| >= 1
    ensures forall i :: 0 <= i < |r| ==> '0' <= r[i] <= '9'
    ensures |r| > 1 ==> r[0] != '0'
  {
    if n < 10 then [Digit(n)] else Decimal(n / 10) + [Digit(n % 10)]
  }

  /** printf("%d", i) for any integer: a leading '-' for negatives. */
  function DecimalInt(i: int): (r: string)
    ensures |r| >= 1
    ensures (r[0] == '-') <==> i < 0
  {
    if i < 0 then "-" + Decimal(-i) else Decimal(i)
  }

  /** The value of a run of decimal digits, most significant first. */
  function DigitsValue(s: string): nat
    requires forall i :: 0 <= i < |s| ==> '0' <= s[i] <= '9'
  {
    if |s| == 0 then 0
    else 10 * DigitsValue(s[..|s| - 1]) + (s[|s| - 1] as int - '0' as int)
  }

  /** Reading the decimal form back gives the number. */
  lemma {:induction false} DigitsValueDecimal(n: nat)
    ensures DigitsValue(Decimal(n)) == n
  {
    if n >= 10 {
      var r := Decimal(n);
      assert r[..|r| - 1] == Decimal(n / 10);
      DigitsValueDecimal(n / 10);
    }
  }

  /** tolower in the C locale. */
  function ToLowerAscii(c: char): (r: char)
    ensures 'A' <= c <= 'Z' ==> r as int == c as int + 32
    ensures !('A' <= c <= 'Z') ==> r == c
  {
    if 'A' <= c <= 'Z' then (c as int + 32) as char else c
  }

  /** Every character lower-cased in the C locale. */
  function LowerAscii(s: string): (r: string)
    ensures |r| == |s|
    ensures forall i :: 0 <= i < |s| ==> r[i] == ToLowerAscii(s[i])
  {
    seq(|s|, i requires 0 <= i < |s| => ToLowerAscii(s[i]))
  }

  /** toupper in the C locale. */
  function ToUpperAscii(c: char): (r: char)
    ensures 'a' <= c <= 'z' ==> r as int == c as int - 32
    ensures !('a' <= c <= 'z') ==> r == c
  {
    if 'a' <= c <= 'z' then (c as int - 32) as char else c
  }

  /** Every character upper-cased in the C locale (Python's str.upper on ASCII text). */
  function UpperAscii(s: string): (r: string)
    ensures |r| == |s|
    ensures forall i :: 0 <= i < |s| ==> r[i] == ToUpperAscii(s[i])
  {
    seq(|s|, i requires 0 <= i < |s| => ToUpperAscii(s[i]))
  }

  /** strcasecmp(a, b) == 0 in the C locale. */
  predicate EqualsIgnoreCase(a: string, b: string) {
    LowerAscii(a) == LowerAscii(b)
  }
}
