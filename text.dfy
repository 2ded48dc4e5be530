/**
 * The string operations of the .NET runtime the controllers rely on: ASCII
 * case folding (`ToLower`, `OrdinalIgnoreCase`), `Int32.ToString`,
 * `Int32.Parse` and the text form of a `Guid`.
 */
module Text {

  import opened Wrappers

  const MinInt32: int := -0x8000_0000
  const MaxInt32: int := 0x7FFF_FFFF

  predicate IsUpper(c: char) { 'A' <= c <= 'Z' }

  function LowerChar(c: char): char
  {
    if IsUpper(c) then (c as int + 32) as char else c
  }

  /** `ToLower` restricted to ASCII: upper-case letters become lower-case, all else is kept. */
  function Lower(s: string): (r: string)
    ensures |r| == |s|
    ensures forall i :: 0 <= i < |r| ==> !IsUpper(r[i])
    ensures forall i :: 0 <= i < |s| && !IsUpper(s[i]) ==> r[i] == s[i]
    ensures forall i :: 0 <= i < |s| && IsUpper(s[i]) ==> r[i] == (s[i] as int + 32) as char
  {
    seq(|s|, i requires 0 <= i < |s| => LowerChar(s[i]))
  }

  /** `string.Equals(a, b, OrdinalIgnoreCase)`, and equally `a.ToLower() == b.ToLower()`. */
  predicate EqualsIgnoreCase(a: string, b: string)
    ensures EqualsIgnoreCase(a, b) <==>
      |a| == |b| && forall i :: 0 <= i < |a| ==> LowerChar(a[i]) == LowerChar(b[i])
  {
    Lower(a) == Lower(b)
  }

  predicate IsDigit(c: char) { '0' <= c <= '9' }

  predicate AllDigits(s: string)
  {
    forall i :: 0 <= i < |s| ==> IsDigit(s[i])
  }

  /** The decimal digits of `n`, most significant first, without leading zeros. */
  function DigitsOf(n: nat): (r: string)
    ensures |r| > 0 && AllDigits(r)
  {
    if n < 10 then ['0' + n as char]
    else DigitsOf(n / 10) + ['0' + (n % 10) as char]
  }

  /** The number a string of decimal digits denotes. */
  function ValueOf(ds: string): nat
    requires AllDigits(ds)
  {
    if ds == [] then 0
    else 10 * ValueOf(ds[..|ds| - 1]) + (ds[|ds| - 1] - '0') as int
  }

  /** `Int32.ToString()` in the invariant culture. */
  function IntToString(i: int): (r: string)
    ensures |r| > 0 && '/' !in r && '.' !in r && '_' !in r
  {
    DigitsNoPunctuation(if i < 0 then -i else i);
    if i < 0 then "-" + DigitsOf(-i) else DigitsOf(i)
  }

  lemma DigitsNoPunctuation(n: nat)
    ensures '/' !in DigitsOf(n) && '.' !in DigitsOf(n) && '_' !in DigitsOf(n)
  {
    var d := DigitsOf(n);
    assert forall i :: 0 <= i < |d| ==> d[i] != '/' && d[i] != '.' && d[i] != '_';
  }

  function Pow10(n: nat): nat
  {
    if n == 0 then 1 else 10 * Pow10(n - 1)
  }

  /** A run of `n` decimal digits denotes a number below 10^n. */
  lemma {:induction false} ValueOfBelow(ds: string)
    requires AllDigits(ds)
    ensures ValueOf(ds) < Pow10(|ds|)
  {
    if ds != [] {
      ValueOfBelow(ds[..|ds| - 1]);
    }
  }

  /** The syntax `Int32.Parse` accepts: an optional sign followed by at least one ASCII digit. */
  predicate IsIntegerText(s: string)
  {
    && |s| > 0
    && var start := if s[0] == '-' || s[0] == '+' then 1 else 0;
       start < |s| && forall i :: start <= i < |s| ==> IsDigit(s[i])
  }

  /**
   * `Int32.Parse` on an optional sign and a run of ASCII digits; `None` stands
   * for the `FormatException` or `OverflowException` it throws otherwise.
   */
  function ParseInt32(s: string): (r: Option<int>)
    ensures r.Some? ==> MinInt32 <= r.value <= MaxInt32
    ensures r.Some? ==> IsIntegerText(s)
    ensures r.Some? && r.value < 0 ==> s[0] == '-'
    ensures IsIntegerText(s) && |s| <= 9 ==> r.Some?
  {
    var signed := |s| > 0 && (s[0] == '-' || s[0] == '+');
    var digits := if signed then s[1..] else s;
    if |digits| == 0 || !AllDigits(digits) then None
    else
      ValueOfBelow(digits);
      assert Pow10(9) == 1_000_000_000;
      var v: int := if |s| > 0 && s[0] == '-' then -(ValueOf(digits) as int) else ValueOf(digits);
      if MinInt32 <= v <= MaxInt32 then Some(v) else None
  }

  lemma {:induction false} ValueOfDigits(n: nat)
    ensures ValueOf(DigitsOf(n)) == n
  {
    if n >= 10 {
      var d := DigitsOf(n);
      var prefix := DigitsOf(n / 10);
      assert d[..|d| - 1] == prefix;
      ValueOfDigits(n / 10);
    }
  }

  /** Formatting an `int` and parsing it back gives the same number. */
  lemma ParseIntToString(i: int)
    requires MinInt32 <= i <= MaxInt32
    ensures ParseInt32(IntToString(i)) == Some(i)
  {
    var s := IntToString(i);
    if i < 0 {
      var d := DigitsOf(-i);
      ValueOfDigits(-i);
      assert s == "-" + d && s[0] == '-';
      assert s[1..] == d;
    } else {
      var d := DigitsOf(i);
      ValueOfDigits(i);
      assert s == d && IsDigit(s[0]);
    }
  }

  predicate IsLowerHexDigit(c: char) { IsDigit(c) || 'a' <= c <= 'f' }

  /** `Guid.ToString()`: 32 lower-case hexadecimal digits in groups 8-4-4-4-12. */
  predicate IsGuidText(g: string)
  {
    && |g| == 36
    && forall i :: 0 <= i < 36 ==>
         if i == 8 || i == 13 || i == 18 || i == 23 then g[i] == '-' else IsLowerHexDigit(g[i])
  }

  lemma GuidHasNoPunctuation(g: string)
    requires IsGuidText(g)
    ensures '/' !in g && '.' !in g && '_' !in g
  {
    assert forall i :: 0 <= i < |g| ==> g[i] != '/' && g[i] != '.' && g[i] != '_';
  }
}
