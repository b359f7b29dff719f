/**
 * Python's `int(s)` on a string, in base 10: surrounding whitespace is
 * ignored, an optional sign may lead, and the digits may be grouped by
 * single underscores (`"1_000"`). Anything else raises `ValueError`,
 * modelled here as `None`.
 */
module PyInt {
  import opened Wrappers
  import opened PyStr

  predicate IsDigit(c: char) { '0' <= c <= '9' }

  function DigitValue(c: char): (d: nat)
    requires IsDigit(c)
    ensures d < 10
  {
    c as int - '0' as int
  }

  function DigitChar(d: nat): (c: char)
    requires d < 10
    ensures IsDigit(c) && DigitValue(c) == d
  {
    (d + '0' as int) as char
  }

  /**
   * The digit part of a literal: ASCII digits, where an underscore may stand
   * between two digits but not first, last or twice in a row.
   */
  predicate IsDigitRun(b: string) {
    && |b| > 0
    && IsDigit(b[0])
    && IsDigit(b[|b| - 1])
    && forall i :: 0 <= i < |b| ==> DigitOrJoiner(b, i)
  }

  /** `b[i]` is a digit, or an underscore followed by a digit. */
  predicate DigitOrJoiner(b: string, i: int)
    requires 0 <= i < |b|
  {
    IsDigit(b[i]) || (b[i] == '_' && i + 1 < |b| && IsDigit(b[i + 1]))
  }

  /** An optional sign followed by a digit run. */
  predicate IsSignedRun(t: string) {
    || IsDigitRun(t)
    || (|t| > 0 && (t[0] == '+' || t[0] == '-') && IsDigitRun(t[1..]))
  }

  /**
   * The ASCII information separators U+001C..U+001F: `str.isspace()` accepts
   * them, but `int()` skips only the other whitespace characters.
   */
  predicate IsInfoSeparator(c: char) {
    0x1C <= c as int <= 0x1F
  }

  /** The whitespace `int()` skips around a literal. */
  predicate IsIntSpace(c: char) {
    IsSpace(c) && !IsInfoSeparator(c)
  }

  predicate AllIntSpace(s: string) {
    forall k :: 0 <= k < |s| ==> IsIntSpace(s[k])
  }

  predicate HasInfoSeparator(s: string) {
    exists k :: 0 <= k < |s| && IsInfoSeparator(s[k])
  }

  /** The strings `int()` accepts: a signed digit run with optional whitespace on either side. */
  predicate IsIntLiteral(s: string) {
    exists i, j :: 0 <= i <= j <= |s| && AllIntSpace(s[..i]) && IsSignedRun(s[i..j]) && AllIntSpace(s[j..])
  }

  lemma DigitRunInit(b: string)
    requires |b| >= 2 && IsDigit(b[|b| - 1])
    ensures b[|b| - 2] != '_' ==> (IsDigitRun(b) <==> IsDigitRun(b[..|b| - 1]))
    ensures b[|b| - 2] == '_' ==> (IsDigitRun(b) <==> IsDigitRun(b[..|b| - 2]))
  {
    var n := if b[|b| - 2] == '_' then |b| - 2 else |b| - 1;
    var front := b[..n];
    if IsDigitRun(front) {
      forall i | 0 <= i < |b| ensures DigitOrJoiner(b, i) {
        if i < n {
          assert DigitOrJoiner(front, i);
          assert b[i] == front[i];
          if i + 1 < n { assert b[i + 1] == front[i + 1]; }
        }
      }
    }
    if IsDigitRun(b) {
      assert DigitOrJoiner(b, n - 1);
      assert n > 0 && IsDigit(front[n - 1]);
      forall i | 0 <= i < n ensures DigitOrJoiner(front, i) {
        assert DigitOrJoiner(b, i);
        assert front[i] == b[i];
        if i + 1 < n { assert front[i + 1] == b[i + 1]; }
      }
    }
  }

  /**
   * The value of the digits of `b` read from the left, the way CPython reads
   * a literal: each digit multiplies what was read so far by ten and adds
   * itself, and an underscore adds nothing.
   */
  function DigitsValue(b: string): nat {
    ReadDigits(b, 0)
  }

  function ReadDigits(b: string, acc: nat): nat
    decreases |b|
  {
    if b == [] then acc
    else ReadDigits(b[1..], if IsDigit(b[0]) then acc * 10 + DigitValue(b[0]) else acc)
  }

  /** Reading `x + y` is reading `x`, then carrying on through `y`. */
  lemma {:induction false} ReadDigitsAppend(x: string, y: string, acc: nat)
    ensures ReadDigits(x + y, acc) == ReadDigits(y, ReadDigits(x, acc))
    decreases |x|
  {
    if x == [] {
      assert x + y == y;
    } else {
      assert (x + y)[0] == x[0] && (x + y)[1..] == x[1..] + y;
      var next := if IsDigit(x[0]) then acc * 10 + DigitValue(x[0]) else acc;
      ReadDigitsAppend(x[1..], y, next);
    }
  }

  /** The last digit of a run is its units digit; an underscore before it adds nothing. */
  lemma DigitsValueLast(b: string, n: nat)
    requires 0 <= n < |b| && IsDigit(b[|b| - 1])
    requires n == |b| - 1 || (n == |b| - 2 && b[n] == '_')
    ensures DigitsValue(b) == DigitsValue(b[..n]) * 10 + DigitValue(b[|b| - 1])
  {
    var tail := b[n..];
    assert b == b[..n] + tail;
    ReadDigitsAppend(b[..n], tail, 0);
    var v := DigitsValue(b[..n]);
    if n == |b| - 2 {
      assert tail == ['_', b[|b| - 1]];
      assert ReadDigits(tail, v) == ReadDigits(tail[1..], v);
      assert tail[1..] == [b[|b| - 1]];
    } else {
      assert tail == [b[|b| - 1]];
    }
  }

  /**
   * Reads a digit run from the right, skipping each underscore; fails on
   * exactly the strings that are not digit runs, and otherwise gives the
   * value the left-to-right reading gives.
   */
  function ParseDigitRun(b: string): (r: Option<nat>)
    ensures r.Some? <==> IsDigitRun(b)
    ensures r.Some? ==> r.value == DigitsValue(b)
    decreases |b|
  {
    if b == [] || !IsDigit(b[|b| - 1]) then None
    else if |b| == 1 then
      assert DigitsValue(b) == ReadDigits(b[1..], DigitValue(b[0]));
      Some(DigitValue(b[0]))
    else
      DigitRunInit(b);
      var d := DigitValue(b[|b| - 1]);
      var n := if b[|b| - 2] == '_' then |b| - 2 else |b| - 1;
      DigitsValueLast(b, n);
      match ParseDigitRun(b[..n])
      case None => None
      case Some(v) => Some(v * 10 + d)
  }

  /** A leading zero does not change the value. */
  lemma LeadingZeroValue(b: string)
    ensures DigitsValue("0" + b) == DigitsValue(b)
  {
    assert ("0" + b)[1..] == b;
  }

  /** An underscore between two groups of digits does not change the value. */
  lemma UnderscoreValue(x: string, y: string)
    ensures DigitsValue(x + "_" + y) == DigitsValue(x + y)
  {
    assert x + "_" + y == x + ("_" + y);
    ReadDigitsAppend(x, "_" + y, 0);
    ReadDigitsAppend(x, y, 0);
    assert ("_" + y)[1..] == y;
  }

  lemma SignedRunShape(t: string)
    requires IsSignedRun(t)
    ensures Trimmed(t)
    ensures !HasInfoSeparator(t)
  {
    forall k | 0 <= k < |t| ensures !IsInfoSeparator(t[k]) {
      if IsDigitRun(t) {
        assert DigitOrJoiner(t, k);
      } else if k > 0 {
        var b := t[1..];
        assert t[k] == b[k - 1];
        assert DigitOrJoiner(b, k - 1);
      }
    }
    if !IsDigitRun(t) {
      assert t[|t| - 1] == t[1..][|t| - 2];
    }
  }

  /** Whitespace in a string without information separators is whitespace `int()` skips. */
  lemma SpaceIsIntSpace(s: string, i: int, j: int)
    requires 0 <= i <= j <= |s| && !HasInfoSeparator(s) && AllSpace(s[i..j])
    ensures AllIntSpace(s[i..j])
  {
    forall k | 0 <= k < j - i ensures IsIntSpace(s[i..j][k]) {
      assert s[i..j][k] == s[i + k];
    }
  }

  /** A string made of int whitespace, a signed run and int whitespace has no information separator. */
  lemma PaddedRunNoSeparator(before: string, core: string, after: string)
    requires AllIntSpace(before) && IsSignedRun(core) && AllIntSpace(after)
    ensures !HasInfoSeparator(before + core + after)
  {
    var s := before + core + after;
    SignedRunShape(core);
    forall k | 0 <= k < |s| ensures !IsInfoSeparator(s[k]) {
      if k < |before| {
        assert s[k] == before[k];
      } else if k < |before| + |core| {
        assert s[k] == core[k - |before|];
      } else {
        assert s[k] == after[k - |before| - |core|];
      }
    }
  }

  /** A string the parser accepts fits the grammar: the stripped core is the witness. */
  lemma IntLiteralOfStripped(s: string)
    requires !HasInfoSeparator(s) && IsSignedRun(Strip(s))
    ensures IsIntLiteral(s)
  {
    var i, j := StripLocation(s);
    var before, core, after := s[..i], s[i..j], s[j..];
    assert IsSignedRun(core);
    assert AllIntSpace(before) by {
      assert before == s[0..i];
      SpaceIsIntSpace(s, 0, i);
    }
    assert AllIntSpace(after) by {
      assert after == s[j..|s|];
      SpaceIsIntSpace(s, j, |s|);
    }
    assert 0 <= i <= j <= |s|;
  }

  /** A string that fits the grammar strips to its signed run and has no information separator. */
  lemma StrippedOfIntLiteral(s: string)
    requires IsIntLiteral(s)
    ensures !HasInfoSeparator(s) && IsSignedRun(Strip(s))
  {
    var i, j :| 0 <= i <= j <= |s| && AllIntSpace(s[..i]) && IsSignedRun(s[i..j]) && AllIntSpace(s[j..]);
    var before, core, after := s[..i], s[i..j], s[j..];
    SignedRunShape(core);
    assert s == before + core + after;
    PaddedRunNoSeparator(before, core, after);
    assert AllSpace(before) && AllSpace(after);
    StripPadded(before, core, after);
  }

  /**
   * The parser's route to the grammar: no information separator anywhere,
   * and what `strip()` leaves is a signed digit run.
   */
  lemma IntLiteralIff(s: string)
    ensures IsIntLiteral(s) <==> !HasInfoSeparator(s) && IsSignedRun(Strip(s))
  {
    if !HasInfoSeparator(s) && IsSignedRun(Strip(s)) {
      IntLiteralOfStripped(s);
    }
    if IsIntLiteral(s) {
      StrippedOfIntLiteral(s);
    }
  }

  /** `int(s)`: `None` where Python raises `ValueError`, otherwise the value of the stripped literal. */
  function ParseInt(s: string): (r: Option<int>)
    ensures r.Some? <==> IsIntLiteral(s)
    ensures r.Some? ==> r.value == SignedValue(Strip(s))
  {
    IntLiteralIff(s);
    if HasInfoSeparator(s) then None else ParseSigned(Strip(s))
  }

  /** `int("+0_07") == 7`: the sign, the leading zero and the underscore add nothing. */
  lemma SignedExample()
    ensures ParseSigned("+0_07") == Some(7)
  {
    var b := "0_07";
    assert "+0_07"[1..] == b;
    LeadingZeroValue("07");
    assert b == "0" + "_" + "07";
    UnderscoreValue("0", "07");
    assert IsDigitRun(b) by {
      assert DigitOrJoiner(b, 0) && DigitOrJoiner(b, 1) && DigitOrJoiner(b, 2) && DigitOrJoiner(b, 3);
    }
  }

  /** The value of a signed digit run: the value of its digits, negated after `-`. */
  function SignedValue(t: string): int {
    if |t| > 0 && t[0] == '-' then -(DigitsValue(t[1..]) as int)
    else if |t| > 0 && t[0] == '+' then DigitsValue(t[1..])
    else DigitsValue(t)
  }

  /** An optional sign followed by a digit run, with no whitespace around. */
  function ParseSigned(t: string): (r: Option<int>)
    ensures r.Some? <==> IsSignedRun(t)
    ensures r.Some? ==> r.value == SignedValue(t)
  {
    if |t| > 0 && (t[0] == '+' || t[0] == '-') then
      match ParseDigitRun(t[1..])
      case None => None
      case Some(v) => Some(if t[0] == '-' then -(v as int) else v)
    else
      match ParseDigitRun(t)
      case None => None
      case Some(v) => Some(v)
  }

  /** The decimal digits of `n`, most significant first, without leading zeros. */
  function ShowNat(n: nat): (s: string)
    ensures |s| > 0 && IsDigit(s[0]) && IsDigit(s[|s| - 1])
  {
    if n < 10 then [DigitChar(n)] else ShowNat(n / 10) + [DigitChar(n % 10)]
  }

  /** `str(n)`. */
  function ShowInt(n: int): string {
    if n < 0 then "-" + ShowNat(-n) else ShowNat(n)
  }

  lemma {:induction false} ParseShowNat(n: nat)
    ensures ParseDigitRun(ShowNat(n)) == Some(n)
  {
    if n >= 10 {
      ParseShowNat(n / 10);
      var s := ShowNat(n);
      assert s[..|s| - 1] == ShowNat(n / 10);
      assert s[|s| - 2] != '_';
    }
  }

  lemma ShowIntShape(n: int)
    ensures Trimmed(ShowInt(n))
    ensures !HasInfoSeparator(ShowInt(n))
  {
    var s := ShowInt(n);
    var digits := ShowNat(if n < 0 then -n else n);
    assert s[|s| - 1] == digits[|digits| - 1];
    forall k | 0 <= k < |s| ensures !IsInfoSeparator(s[k]) {
      if n < 0 && k > 0 {
        assert s[k] == digits[k - 1];
        ShowNatDigits(-n, k - 1);
      } else if n >= 0 {
        ShowNatDigits(n, k);
      }
    }
  }

  lemma {:induction false} ShowNatDigits(n: nat, k: int)
    requires 0 <= k < |ShowNat(n)|
    ensures IsDigit(ShowNat(n)[k])
  {
    if n >= 10 && k < |ShowNat(n / 10)| {
      ShowNatDigits(n / 10, k);
    }
  }

  lemma ParseSignedShow(n: int)
    ensures ParseSigned(ShowInt(n)) == Some(n)
  {
    var s := ShowInt(n);
    if n < 0 {
      var m := -n;
      var digits := ShowNat(m);
      ParseShowNat(m);
      assert s == "-" + digits;
      assert s[0] == '-' && s[1..] == digits;
      assert ParseDigitRun(s[1..]) == Some(m);
    } else {
      ParseShowNat(n);
      assert IsDigit(s[0]);
    }
  }

  /** `int(str(n)) == n` for every integer `n`. */
  lemma ParseShowInt(n: int)
    ensures ParseInt(ShowInt(n)) == Some(n)
  {
    ShowIntShape(n);
    StripTrimmed(ShowInt(n));
    ParseSignedShow(n);
  }

  /** Whitespace around a literal does not change what `int()` makes of it. */
  lemma ParseIgnoresSpace(before: string, t: string, after: string)
    requires AllIntSpace(before) && AllIntSpace(after) && IsSignedRun(t)
    ensures ParseInt(before + t + after) == ParseInt(t)
  {
    SignedRunShape(t);
    PaddedRunNoSeparator(before, t, after);
    StripPadded(before, t, after);
    StripTrimmed(t);
  }

}
