/**
 * The key rule of get_next_proc_key: the "proc" map of a stored file
 * has string keys "1", "2", ...; the next key is one more than the
 * largest key strtol reads completely as a positive number. strtol is
 * modelled on 64-bit longs in the C locale, with errno as explicit state.
 */
module ProcKey {
  import opened Wrappers
  import opened Text

  const LongMax: int := 0x7FFF_FFFF_FFFF_FFFF
  const LongMin: int := -0x8000_0000_0000_0000
  /** The value strtol stores in errno when the number does not fit. */
  const Erange: int := 34
  /** The size of the buffer the key is printed into. */
  const MaxKeyLength: nat := 32

  /** isspace in the C locale: ' ', '\t', '\n', '\v', '\f', '\r'. */
  predicate IsCSpace(c: char) {
    c == ' ' || '\t' <= c <= '\r'
  }

  predicate IsDigit(c: char) {
    '0' <= c <= '9'
  }

  /** The end of the run of white space starting at `i`. */
  function SpaceRun(s: string, i: nat): (r: nat)
    requires i <= |s|
    ensures i <= r <= |s|
    ensures forall j :: i <= j < r ==> IsCSpace(s[j])
    ensures r == |s| || !IsCSpace(s[r])
    decreases |s| - i
  {
    if i < |s| && IsCSpace(s[i]) then SpaceRun(s, i + 1) else i
  }

  /** The end of the run of decimal digits starting at `i`. */
  function DigitRun(s: string, i: nat): (r: nat)
    requires i <= |s|
    ensures i <= r <= |s|
    ensures forall j :: i <= j < r ==> IsDigit(s[j])
    ensures r == |s| || !IsDigit(s[r])
    decreases |s| - i
  {
    if i < |s| && IsDigit(s[i]) then DigitRun(s, i + 1) else i
  }

  /** What strtol(s, &end, 10) returns, where `end` points, and whether it set ERANGE. */
  datatype Parse = Parse(value: int, end: nat, overflow: bool)

  /**
   * strtol with base 10: white space, an optional sign, then digits. With
   * no digits the value is 0 and the end pointer is the start of the
   * string; a value out of range is clamped and reported as an overflow.
   */
  function Strtol(s: string): (r: Parse)
    ensures r.end <= |s|
    ensures LongMin <= r.value <= LongMax
    ensures r.overflow ==> r.value == LongMax || r.value == LongMin
    ensures r.end == 0 ==> r.value == 0 && !r.overflow
  {
    var w := SpaceRun(s, 0);
    var signed := w < |s| && (s[w] == '-' || s[w] == '+');
    var negative := w < |s| && s[w] == '-';
    var start := if signed then w + 1 else w;
    var e := DigitRun(s, start);
    if e == start then Parse(0, 0, false)
    else
      var magnitude := DigitsValue(s[start..e]);
      var v: int := if negative then -(magnitude as int) else magnitude;
      if v > LongMax then Parse(LongMax, e, true)
      else if v < LongMin then Parse(LongMin, e, true)
      else Parse(v, e, false)
  }

  /** The C function's test: errno clear, nothing left unparsed, positive, and larger. */
  predicate Accepts(errno: int, key: string, p: Parse, maxKey: int) {
    errno == 0 && p.end == |key| && p.value > 0 && p.value > maxKey
  }

  /**
   * The running maximum over the keys in the map's order, with errno
   * threaded through: strtol sets it to ERANGE on overflow and otherwise
   * leaves it alone. With `reset` errno is cleared before each call.
   */
  function MaxKey(keys: seq<string>, reset: bool, errno: int, maxKey: int): (r: int)
    ensures r >= maxKey
    ensures maxKey <= LongMax ==> r <= LongMax
    decreases |keys|
  {
    if |keys| == 0 then maxKey
    else
      var p := Strtol(keys[0]);
      var before := if reset then 0 else errno;
      var after := if p.overflow then Erange else before;
      var m := if Accepts(after, keys[0], p, maxKey) then p.value else maxKey;
      MaxKey(keys[1..], reset, after, m)
  }

  /** The running maximum is its starting value or the value of one of the keys. */
  lemma {:induction false} MaxKeyIsKey(keys: seq<string>, reset: bool, errno: int, maxKey: int)
    ensures var r := MaxKey(keys, reset, errno, maxKey);
            r == maxKey || exists i :: 0 <= i < |keys| && r == Strtol(keys[i]).value
    decreases |keys|
  {
    if |keys| > 0 {
      var p := Strtol(keys[0]);
      var before := if reset then 0 else errno;
      var after := if p.overflow then Erange else before;
      var m := if Accepts(after, keys[0], p, maxKey) then p.value else maxKey;
      var r := MaxKey(keys[1..], reset, after, m);
      MaxKeyIsKey(keys[1..], reset, after, m);
      if r != m {
        var i :| 0 <= i < |keys[1..]| && r == Strtol(keys[1..][i]).value;
        assert keys[1..][i] == keys[i + 1];
      }
    }
  }

  /** int64 arithmetic for max_key + 1: LONG_MAX + 1 wraps to LONG_MIN. */
  function Increment64(n: int): (r: int)
    requires LongMin <= n <= LongMax
    ensures LongMin <= r <= LongMax
    ensures n < LongMax ==> r == n + 1
  {
    if n == LongMax then LongMin else n + 1
  }

  /** What the store hands the function: no collection, no "proc" document, or its keys. */
  datatype ProcMap = NoCollection | NoProcDocument | ProcKeys(keys: seq<string>)

  function KeysOf(m: ProcMap): seq<string> {
    if m.ProcKeys? then m.keys else []
  }

  /** get_next_proc_key as written: errno enters with whatever value `errno0` and is never cleared. */
  method NextProcKey(procMap: ProcMap, errno0: int, allocates: bool) returns (key: Option<string>)
    ensures procMap.NoCollection? || !allocates ==> key.None?
    ensures !procMap.NoCollection? && allocates ==>
              key == Some(DecimalInt(Increment64(MaxKey(KeysOf(procMap), false, errno0, 0))))
  {
    if procMap.NoCollection? {
      return None;
    }
    var maxKey := 0;
    var errno := errno0;
    var keys := KeysOf(procMap);
    var i := 0;
    while i < |keys|
      invariant 0 <= i <= |keys|
      invariant 0 <= maxKey <= LongMax
      invariant MaxKey(keys[i..], false, errno, maxKey) == MaxKey(keys, false, errno0, 0)
    {
      assert keys[i..][1..] == keys[i + 1..];
      var p := Strtol(keys[i]);
      if p.overflow {
        errno := Erange;
      }
      if errno == 0 && p.end == |keys[i]| && p.value > 0 && p.value > maxKey {
        maxKey := p.value;
      }
      i := i + 1;
    }
    if !allocates {
      return None;
    }
    key := Some(DecimalInt(Increment64(maxKey)));
  }

  /** The value the as-written loop keeps stays within 0..LONG_MAX, so the increment is defined. */
  lemma {:induction false} MaxKeyRange(keys: seq<string>, reset: bool, errno: int, maxKey: int)
    requires 0 <= maxKey <= LongMax
    ensures 0 <= MaxKey(keys, reset, errno, maxKey) <= LongMax
    decreases |keys|
  {
    if |keys| > 0 {
      var p := Strtol(keys[0]);
      var before := if reset then 0 else errno;
      var after := if p.overflow then Erange else before;
      var m := if Accepts(after, keys[0], p, maxKey) then p.value else maxKey;
      MaxKeyRange(keys[1..], reset, after, m);
    }
  }

  /** With errno cleared before every call the maximum bounds every completely parsed positive key. */
  lemma {:induction false} MaxKeyBoundsAccepted(keys: seq<string>, maxKey: int, errno: int, i: nat)
    requires i < |keys| && maxKey >= 0
    requires Strtol(keys[i]).end == |keys[i]| && !Strtol(keys[i]).overflow
    ensures MaxKey(keys, true, errno, maxKey) >= Strtol(keys[i]).value
    decreases |keys|
  {
    var p := Strtol(keys[0]);
    var after := if p.overflow then Erange else 0;
    var m := if Accepts(after, keys[0], p, maxKey) then p.value else maxKey;
    var r := MaxKey(keys[1..], true, after, m);
    assert MaxKey(keys, true, errno, maxKey) == r;
    if i > 0 {
      assert keys[1..][i - 1] == keys[i];
      MaxKeyBoundsAccepted(keys[1..], m, after, i - 1);
    } else {
      AcceptedBound(after, keys[0], p, maxKey);
    }
  }

  /** With errno clear, a complete parse leaves the running maximum at least its value. */
  lemma AcceptedBound(errno: int, key: string, p: Parse, maxKey: int)
    requires errno == 0 && p.end == |key| && maxKey >= 0
    ensures (if Accepts(errno, key, p, maxKey) then p.value else maxKey) >= p.value
  {
  }

  /** Once a key overflows, the as-written loop ignores every later key, whatever it holds. */
  lemma {:induction false} OverflowMasksLaterKeys(keys: seq<string>, maxKey: int, errno: int)
    requires errno != 0
    ensures MaxKey(keys, false, errno, maxKey) == maxKey
    decreases |keys|
  {
    if |keys| > 0 {
      var p := Strtol(keys[0]);
      var after := if p.overflow then Erange else errno;
      OverflowMasksLaterKeys(keys[1..], maxKey, after);
    }
  }

  /** Reading the printed form of a positive long back gives the number, with nothing left over. */
  lemma StrtolDecimal(n: int)
    requires 0 < n <= LongMax
    ensures Strtol(DecimalInt(n)) == Parse(n, |DecimalInt(n)|, false)
  {
    var s := DecimalInt(n);
    assert s == Decimal(n);
    assert !IsCSpace(s[0]) && s[0] != '-' && s[0] != '+';
    assert SpaceRun(s, 0) == 0;
    DigitRunToEnd(s, 0);
    assert s[0..|s|] == s;
    DigitsValueDecimal(n);
  }

  lemma {:induction false} DigitRunToEnd(s: string, i: nat)
    requires i <= |s|
    requires forall j :: i <= j < |s| ==> IsDigit(s[j])
    ensures DigitRun(s, i) == |s|
    decreases |s| - i
  {
    if i < |s| {
      DigitRunToEnd(s, i + 1);
    }
  }

  /**
   * The key get_next_proc_key evidently means to produce: errno cleared
   * before each strtol, so one overflowing key no longer hides the others.
   */
  function NextKeyCorrected(keys: seq<string>): (r: string)
    ensures |r| >= 1
  {
    MaxKeyRange(keys, true, 0, 0);
    DecimalInt(Increment64(MaxKey(keys, true, 0, 0)))
  }

  /** The corrected key collides with no key already in the map, unless the map already holds LONG_MAX. */
  lemma NextKeyFresh(keys: seq<string>, i: nat)
    requires i < |keys|
    requires MaxKey(keys, true, 0, 0) < LongMax
    ensures NextKeyCorrected(keys) != keys[i]
  {
    MaxKeyRange(keys, true, 0, 0);
    var n := MaxKey(keys, true, 0, 0) + 1;
    StrtolDecimal(n);
    if NextKeyCorrected(keys) == keys[i] {
      MaxKeyBoundsAccepted(keys, 0, 0, i);
    }
  }

  /** A string of digits only, too large for a long, is parsed completely and overflows. */
  lemma DigitStringOverflows(s: string)
    requires |s| > 0 && forall j :: 0 <= j < |s| ==> '0' <= s[j] <= '9'
    requires DigitsValue(s) > LongMax
    ensures Strtol(s).overflow && Strtol(s).end == |s|
  {
    assert SpaceRun(s, 0) == 0;
    DigitRunToEnd(s, 0);
    assert s[0..|s|] == s;
  }

  /** Twenty nines exceed LONG_MAX. */
  lemma TwentyNinesValue(s: string)
    requires |s| == 20 && forall j :: 0 <= j < |s| ==> s[j] == '9'
    ensures DigitsValue(s) > LongMax
  {
    ValueAtLeast(s, 19);
    assert Pow10(3) == 1000;
    assert Pow10(4) == 10000;
    Pow10Add(4, 4);
    Pow10Add(8, 8);
    Pow10Add(16, 3);
  }

  /** A twenty-digit key overflows a long. */
  lemma TwentyNinesOverflow()
    ensures Strtol("99999999999999999999").overflow
  {
    var s := "99999999999999999999";
    assert forall j :: 0 <= j < |s| ==> s[j] == '9';
    TwentyNinesValue(s);
    DigitStringOverflows(s);
  }

  /** A run of nines can only be large. */
  lemma {:induction false} ValueAtLeast(s: string, k: nat)
    requires |s| == k + 1 && forall j :: 0 <= j < |s| ==> s[j] == '9'
    ensures DigitsValue(s) >= Pow10(k)
    decreases k
  {
    if k > 0 {
      ValueAtLeast(s[..k], k - 1);
    }
  }

  function Pow10(k: nat): (r: nat)
    ensures r >= 1
  {
    if k == 0 then 1 else 10 * Pow10(k - 1)
  }

  lemma {:induction false} Pow10Add(a: nat, b: nat)
    ensures Pow10(a + b) == Pow10(a) * Pow10(b)
    decreases a
  {
    if a > 0 {
      Pow10Add(a - 1, b);
    }
  }

  /**
   * The as-written rule hands out "1" for the map {"99999999999999999999",
   * "1"}: the first key sets errno, so the second is never accepted and
   * the new key collides with it. The corrected rule gives "2".
   */
  lemma ProcKeyCollision()
    ensures MaxKey(["99999999999999999999", "1"], false, 0, 0) == 0
    ensures DecimalInt(Increment64(MaxKey(["99999999999999999999", "1"], false, 0, 0))) == "1"
    ensures NextKeyCorrected(["99999999999999999999", "1"]) == "2"
  {
    var keys := ["99999999999999999999", "1"];
    TwentyNinesOverflow();
    var p := Strtol(keys[0]);
    assert !Accepts(Erange, keys[0], p, 0);
    assert keys[1..] == ["1"];
    OverflowMasksLaterKeys(keys[1..], 0, Erange);
    StrtolDecimal(1);
    assert DecimalInt(1) == "1";
    assert Strtol("1") == Parse(1, 1, false);
    assert MaxKey(keys, true, 0, 0) == MaxKey(["1"], true, Erange, 0);
    assert ["1"][1..] == [];
    assert MaxKey(["1"], true, Erange, 0) == 1;
    assert Decimal(2) == "2";
  }
}
