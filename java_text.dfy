/** The parts of Java's `String` and `Integer` that the record types rely on:
    `String.compareTo`, `String.CASE_INSENSITIVE_ORDER` (over ASCII case
    folding) and the decimal rendering used by string concatenation. */
module JavaText {

  // ---------------------------------------------------------------------------
  // String.compareTo
  // ---------------------------------------------------------------------------

  /** Java's `String.compareTo`: at the first index where the two strings
      differ, the difference of the two characters; when one string is a
      prefix of the other, the difference of the lengths. */
  function CompareTo(s1: string, s2: string): int
    decreases |s1|
  {
    if |s1| == 0 || |s2| == 0 then |s1| - |s2|
    else if s1[0] != s2[0] then s1[0] as int - s2[0] as int
    else CompareTo(s1[1..], s2[1..])
  }

  /** At the first differing index `k` the result is the difference of the
      characters found there. */
  lemma {:induction false} CompareToFirstDifference(s1: string, s2: string, k: nat)
    requires k < |s1| && k < |s2|
    requires s1[..k] == s2[..k] && s1[k] != s2[k]
    ensures CompareTo(s1, s2) == s1[k] as int - s2[k] as int
  {
    if k > 0 {
      assert s1[0] == s1[..k][0] == s2[..k][0] == s2[0];
      assert s1[1..][..k - 1] == s1[1..k] == s2[1..k] == s2[1..][..k - 1];
      CompareToFirstDifference(s1[1..], s2[1..], k - 1);
    }
  }

  /** When the two strings agree up to the shorter length, the result is the
      difference of the lengths. */
  lemma {:induction false} CompareToCommonPrefix(s1: string, s2: string)
    requires forall i :: 0 <= i < |s1| && i < |s2| ==> s1[i] == s2[i]
    ensures CompareTo(s1, s2) == |s1| - |s2|
  {
    if |s1| > 0 && |s2| > 0 {
      assert s1[0] == s2[0];
      forall i | 0 <= i < |s1| - 1 && i < |s2| - 1 ensures s1[1..][i] == s2[1..][i] {
        assert s1[i + 1] == s2[i + 1];
      }
      CompareToCommonPrefix(s1[1..], s2[1..]);
    }
  }

  /** Swapping the arguments negates the result exactly. */
  lemma {:induction false} CompareToAntisymmetric(s1: string, s2: string)
    ensures CompareTo(s1, s2) == -CompareTo(s2, s1)
    decreases |s1|
  {
    if |s1| > 0 && |s2| > 0 && s1[0] == s2[0] {
      CompareToAntisymmetric(s1[1..], s2[1..]);
    }
  }

  /** The result is zero exactly for equal strings. */
  lemma {:induction false} CompareToZeroIffEqual(s1: string, s2: string)
    ensures CompareTo(s1, s2) == 0 <==> s1 == s2
    decreases |s1|
  {
    if |s1| > 0 && |s2| > 0 && s1[0] == s2[0] {
      CompareToZeroIffEqual(s1[1..], s2[1..]);
      assert s1 == [s1[0]] + s1[1..] && s2 == [s2[0]] + s2[1..];
    }
  }

  /** `CompareTo(_, _) <= 0` is transitive, so together with antisymmetry it
      is a total order on strings. */
  lemma {:induction false} CompareToTransitive(s1: string, s2: string, s3: string)
    requires CompareTo(s1, s2) <= 0 && CompareTo(s2, s3) <= 0
    ensures CompareTo(s1, s3) <= 0
    decreases |s1|
  {
    if |s1| > 0 && |s2| > 0 && |s3| > 0 && s1[0] == s2[0] && s2[0] == s3[0] {
      CompareToTransitive(s1[1..], s2[1..], s3[1..]);
    }
  }

  // ---------------------------------------------------------------------------
  // String.CASE_INSENSITIVE_ORDER, with ASCII case mapping
  // ---------------------------------------------------------------------------

  function ToUpperAscii(c: char): char {
    if 'a' <= c <= 'z' then (c as int - 32) as char else c
  }

  function ToLowerAscii(c: char): char {
    if 'A' <= c <= 'Z' then (c as int + 32) as char else c
  }

  /** The string with every ASCII capital letter replaced by its small letter. */
  function LowerAscii(s: string): (r: string)
    ensures |r| == |s|
  {
    seq(|s|, i requires 0 <= i < |s| => ToLowerAscii(s[i]))
  }

  /** `String.CASE_INSENSITIVE_ORDER.compare`: two differing characters are
      first mapped to upper case and, when still different, to lower case;
      characters that still differ decide the result by their difference;
      otherwise the difference of the lengths. */
  function CompareIgnoreCase(s1: string, s2: string): int
    decreases |s1|
  {
    if |s1| == 0 || |s2| == 0 then |s1| - |s2|
    else
      var c1, c2 := s1[0], s2[0];
      if c1 != c2 && ToUpperAscii(c1) != ToUpperAscii(c2)
         && ToLowerAscii(ToUpperAscii(c1)) != ToLowerAscii(ToUpperAscii(c2))
      then ToLowerAscii(ToUpperAscii(c1)) as int - ToLowerAscii(ToUpperAscii(c2)) as int
      else CompareIgnoreCase(s1[1..], s2[1..])
  }

  /** Ignoring case means comparing the lower-cased strings with `CompareTo`. */
  lemma {:induction false} CompareIgnoreCaseIsCompareLowered(s1: string, s2: string)
    ensures CompareIgnoreCase(s1, s2) == CompareTo(LowerAscii(s1), LowerAscii(s2))
    decreases |s1|
  {
    if |s1| > 0 && |s2| > 0 {
      var l1, l2 := LowerAscii(s1), LowerAscii(s2);
      assert l1[0] == ToLowerAscii(s1[0]) && l2[0] == ToLowerAscii(s2[0]);
      assert l1[1..] == LowerAscii(s1[1..]);
      assert l2[1..] == LowerAscii(s2[1..]);
      CompareIgnoreCaseIsCompareLowered(s1[1..], s2[1..]);
    }
  }

  lemma CompareIgnoreCaseAntisymmetric(s1: string, s2: string)
    ensures CompareIgnoreCase(s1, s2) == -CompareIgnoreCase(s2, s1)
  {
    CompareIgnoreCaseIsCompareLowered(s1, s2);
    CompareIgnoreCaseIsCompareLowered(s2, s1);
    CompareToAntisymmetric(LowerAscii(s1), LowerAscii(s2));
  }

  /** The result is zero exactly when the strings are equal up to ASCII case. */
  lemma CompareIgnoreCaseZeroIff(s1: string, s2: string)
    ensures CompareIgnoreCase(s1, s2) == 0 <==> LowerAscii(s1) == LowerAscii(s2)
  {
    CompareIgnoreCaseIsCompareLowered(s1, s2);
    CompareToZeroIffEqual(LowerAscii(s1), LowerAscii(s2));
  }

  // ---------------------------------------------------------------------------
  // Decimal rendering of an int, as string concatenation does it
  // ---------------------------------------------------------------------------

  predicate IsDigit(c: char) {
    '0' <= c <= '9'
  }

  function DigitChar(d: nat): char
    requires d < 10
  {
    ('0' as int + d) as char
  }

  /** The decimal digits of `n`, most significant first, without leading zeros. */
  function NatToDecimal(n: nat): (r: string)
    ensures |r| > 0
    ensures forall i :: 0 <= i < |r| ==> IsDigit(r[i])
    decreases n
  {
    if n < 10 then [DigitChar(n)] else NatToDecimal(n / 10) + [DigitChar(n % 10)]
  }

  /** `Integer.toString`: a minus sign before the digits of a negative number. */
  function IntToString(n: int): string {
    if n < 0 then "-" + NatToDecimal(-n) else NatToDecimal(n)
  }

  /** The value of a string of decimal digits. */
  function DecimalValue(s: string): nat
    requires forall i :: 0 <= i < |s| ==> IsDigit(s[i])
  {
    if |s| == 0 then 0
    else
      assert IsDigit(s[|s| - 1]);
      DecimalValue(s[..|s| - 1]) * 10 + (s[|s| - 1] as int - '0' as int)
  }

  /** `Integer.parseInt` on the strings `IntToString` produces. */
  function ParseInt(s: string): int
    requires |s| > 0
    requires s[0] == '-' || IsDigit(s[0])
    requires forall i :: 0 < i < |s| ==> IsDigit(s[i])
  {
    if s[0] == '-' then -(DecimalValue(s[1..]) as int) else DecimalValue(s)
  }

  lemma {:induction false} DecimalValueOfNatToDecimal(n: nat)
    ensures DecimalValue(NatToDecimal(n)) == n
    decreases n
  {
    if n >= 10 {
      var r := NatToDecimal(n);
      assert r[..|r| - 1] == NatToDecimal(n / 10);
      DecimalValueOfNatToDecimal(n / 10);
    }
  }

  /** The rendering is a valid decimal numeral that parses back to `n`, and it
      contains no space. */
  lemma IntToStringParses(n: int)
    ensures var r := IntToString(n);
      && |r| > 0 && (r[0] == '-' || IsDigit(r[0]))
      && (forall i :: 0 < i < |r| ==> IsDigit(r[i]))
      && ' ' !in r
      && ParseInt(r) == n
  {
    var r := IntToString(n);
    if n < 0 {
      assert r[1..] == NatToDecimal(-n);
      DecimalValueOfNatToDecimal(-n);
    } else {
      DecimalValueOfNatToDecimal(n);
    }
    assert forall i :: 0 <= i < |r| ==> r[i] == '-' || IsDigit(r[i]);
  }
}
