/** The handful of Python `str` operations the generator relies on, over
    `seq<char>`. */
module Strings {

  /** `sep.join(parts)`. */
  function Join(parts: seq<string>, sep: string): string
  {
    if |parts| == 0 then ""
    else if |parts| == 1 then parts[0]
    else parts[0] + sep + Join(parts[1..], sep)
  }

  /** A join is empty only when every part is empty and there is at most one part
      or the separator is empty as well. */
  lemma {:induction false} JoinNonEmpty(parts: seq<string>, sep: string, i: int)
    requires 0 <= i < |parts| && parts[i] != ""
    ensures Join(parts, sep) != ""
    decreases |parts|
  {
    if |parts| > 1 && i > 0 {
      JoinNonEmpty(parts[1..], sep, i - 1);
    }
  }

  /** Each part preceded by the separator, concatenated. */
  function PrefixEach(parts: seq<string>, sep: string): string
  {
    if |parts| == 0 then "" else sep + parts[0] + PrefixEach(parts[1..], sep)
  }

  /** A non-empty join is its first part followed by every other part
      preceded by the separator. */
  lemma {:induction false} JoinAsPrefixEach(parts: seq<string>, sep: string)
    requires |parts| > 0
    ensures Join(parts, sep) == parts[0] + PrefixEach(parts[1..], sep)
    decreases |parts|
  {
    if |parts| > 1 {
      JoinAsPrefixEach(parts[1..], sep);
      assert parts[1..][1..] == parts[2..];
    }
  }

  /** `sep.join([""] + parts)` puts the separator in front of every part. */
  lemma JoinAfterEmpty(parts: seq<string>, sep: string)
    ensures Join([""] + parts, sep) == PrefixEach(parts, sep)
  {
    JoinAsPrefixEach([""] + parts, sep);
    assert ([""] + parts)[1..] == parts;
  }

  /** `s.startswith(prefix)`. */
  predicate StartsWith(s: string, prefix: string)
  {
    |prefix| <= |s| && s[..|prefix|] == prefix
  }

  /** `s.split(c)[0]`: everything before the first occurrence of `c`, or the
      whole string when `c` does not occur. */
  function PrefixBefore(s: string, c: char): (r: string)
    ensures c !in r
    ensures |r| <= |s| && s[..|r|] == r
    ensures |r| < |s| <==> c in s
    ensures |r| < |s| ==> s[|r|] == c
  {
    if |s| == 0 then ""
    else if s[0] == c then ""
    else [s[0]] + PrefixBefore(s[1..], c)
  }

  /** The decimal digit character for `d`. */
  function DigitChar(d: nat): char
    requires d < 10
  {
    (('0' as int) + d) as char
  }

  predicate IsDigit(c: char)
  {
    '0' <= c <= '9'
  }

  /** `str(n)` for a non-negative integer. */
  function NatToString(n: nat): (r: string)
    ensures |r| >= 1
    ensures forall i :: 0 <= i < |r| ==> IsDigit(r[i])
  {
    if n < 10 then [DigitChar(n)] else NatToString(n / 10) + [DigitChar(n % 10)]
  }

  function DigitValue(c: char): (d: nat)
    requires IsDigit(c)
    ensures d < 10
  {
    (c as int) - ('0' as int)
  }

  /** `int(s)` for a string of decimal digits. */
  function ParseDigits(s: string): nat
    requires forall i :: 0 <= i < |s| ==> IsDigit(s[i])
  {
    if |s| == 0 then 0
    else 10 * ParseDigits(s[..|s| - 1]) + DigitValue(s[|s| - 1])
  }

  /** Reading back the decimal rendering of a number yields the number. */
  lemma {:induction false} ParseNatToString(n: nat)
    ensures ParseDigits(NatToString(n)) == n
    decreases n
  {
    var r := NatToString(n);
    if n >= 10 {
      ParseNatToString(n / 10);
      assert r[..|r| - 1] == NatToString(n / 10);
    }
  }

  predicate IsLowerChar(c: char)
  {
    'a' <= c <= 'z'
  }

  predicate IsUpperChar(c: char)
  {
    'A' <= c <= 'Z'
  }

  /** `s.isupper()`: at least one cased character and no lower-case one
      (case is modelled for ASCII letters). */
  predicate IsUpper(s: string)
    ensures IsUpper(s) ==> |s| > 0
  {
    (exists i :: 0 <= i < |s| && IsUpperChar(s[i])) &&
    (forall i :: 0 <= i < |s| ==> !IsLowerChar(s[i]))
  }

  /** `isupper` is not "made of capitals": digits and underscores are
      uncased and allowed, but at least one capital is needed. */
  lemma IsUpperExamples()
    ensures IsUpper("A1") && IsUpper("_X") && IsUpper("MAX_SIZE")
    ensures !IsUpper("") && !IsUpper("_1") && !IsUpper("Ab")
  {
    assert "A1"[0] == 'A';
    assert "_X"[1] == 'X';
    assert "MAX_SIZE"[0] == 'M';
    assert "Ab"[1] == 'b';
  }
}
