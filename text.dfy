/**
 * The string operations the client relies on: `Number.prototype.toString` on
 * integers and `String.prototype.replace` with a string pattern (first occurrence only).
 */
module Text {
  import opened Wrappers

  predicate IsDigit(c: char)
  {
    '0' <= c <= '9'
  }

  function DigitChar(d: nat): (c: char)
    requires d < 10
    ensures IsDigit(c)
  {
    (('0' as int) + d) as char
  }

  function DigitValue(c: char): (d: nat)
    requires IsDigit(c)
    ensures d < 10
  {
    (c as int) - ('0' as int)
  }

  /** Decimal digits of `n`, without leading zeros. */
  function NatToString(n: nat): (s: string)
    ensures |s| > 0 && forall k :: 0 <= k < |s| ==> IsDigit(s[k])
  {
    if n < 10 then [DigitChar(n)] else NatToString(n / 10) + [DigitChar(n % 10)]
  }

  /** `String(n)` for an integer `n`. */
  function IntToString(n: int): (s: string)
    ensures |s| > 0
    ensures n < 0 <==> s[0] == '-'
  {
    if n < 0 then "-" + NatToString(-n) else NatToString(n)
  }

  /** The value of a string of decimal digits. */
  function ParseDigits(s: string): nat
    requires forall k :: 0 <= k < |s| ==> IsDigit(s[k])
  {
    if s == [] then 0 else 10 * ParseDigits(s[..|s| - 1]) + DigitValue(s[|s| - 1])
  }

  /** Reading back the digits of a number gives the number. */
  lemma {:induction false} ParseNatToString(n: nat)
    ensures ParseDigits(NatToString(n)) == n
  {
    if n >= 10 {
      var s := NatToString(n);
      assert s[..|s| - 1] == NatToString(n / 10);
      ParseNatToString(n / 10);
    }
  }

  /** Distinct integers have distinct string forms. */
  lemma IntToStringInjective(a: int, b: int)
    requires IntToString(a) == IntToString(b)
    ensures a == b
  {
    if a < 0 {
      assert IntToString(a)[1..] == NatToString(-a);
      assert IntToString(b)[1..] == NatToString(-b);
      ParseNatToString(-a);
      ParseNatToString(-b);
    } else {
      ParseNatToString(a);
      ParseNatToString(b);
    }
  }

  predicate OccursAt(s: string, pattern: string, i: nat)
  {
    i + |pattern| <= |s| && s[i..i + |pattern|] == pattern
  }

  function FirstOccurrenceFrom(s: string, pattern: string, from: nat): (r: Option<nat>)
    requires from <= |s| + 1
    ensures r.Some? ==> (from <= r.value && OccursAt(s, pattern, r.value)
      && forall i :: from <= i < r.value ==> !OccursAt(s, pattern, i))
    ensures r.None? ==> forall i :: from <= i ==> !OccursAt(s, pattern, i)
    decreases |s| + 1 - from
  {
    if from + |pattern| > |s| then None
    else if OccursAt(s, pattern, from) then Some(from)
    else FirstOccurrenceFrom(s, pattern, from + 1)
  }

  /** `s.indexOf(pattern)`, `None` for -1. */
  function FirstOccurrence(s: string, pattern: string): (r: Option<nat>)
    ensures r.Some? ==> OccursAt(s, pattern, r.value) && forall i :: 0 <= i < r.value ==> !OccursAt(s, pattern, i)
    ensures r.None? ==> forall i :: !OccursAt(s, pattern, i)
  {
    FirstOccurrenceFrom(s, pattern, 0)
  }

  /** `s.replace(pattern, replacement)` with a string pattern: only the first occurrence is replaced. */
  function ReplaceFirst(s: string, pattern: string, replacement: string): string
  {
    match FirstOccurrence(s, pattern)
    case None => s
    case Some(i) => s[..i] + replacement + s[i + |pattern|..]
  }

  /**
   * A pattern starting with a character absent from the prefix is first found
   * right after it, so only that occurrence is replaced and the rest is kept verbatim.
   */
  lemma ReplaceAfterPlainPrefix(prefix: string, pattern: string, suffix: string, replacement: string)
    requires |pattern| > 0 && pattern[0] !in prefix
    ensures ReplaceFirst(prefix + pattern + suffix, pattern, replacement) == prefix + replacement + suffix
  {
    var s := prefix + pattern + suffix;
    assert OccursAt(s, pattern, |prefix|) by {
      assert s[|prefix|..|prefix| + |pattern|] == pattern;
    }
    var k := FirstOccurrence(s, pattern);
    assert k == Some(|prefix|);
    assert s[..|prefix|] == prefix;
    assert s[|prefix| + |pattern|..] == suffix;
  }
}
