/**
 Text helpers of the depend-info command: the identifier sanitiser used by
 the DOT renderer, and the decimal rendering of a count (the `%d` of the
 singleton summary node).
 */
module Names {
  import opened Seqs

  /** The character rule of the sanitiser: a dash becomes an underscore. */
  function Underscored(c: char): char {
    if c == '-' then '_' else c
  }

  /**
   `replace_dashes_with_underscore`: a copy of the input with each character
   passed through `Underscored`; the length is kept.
   */
  function ReplaceDashesWithUnderscore(input: string): (output: string)
    ensures |output| == |input|
  {
    if input == [] then []
    else [Underscored(input[0])] + ReplaceDashesWithUnderscore(input[1..])
  }

  /**
   Every `-` becomes `_` and every other character is kept where it was, so
   the result has no dash.
   */
  lemma {:induction false} ReplaceDashesPointwise(input: string)
    ensures forall i :: 0 <= i < |input| ==>
      ReplaceDashesWithUnderscore(input)[i] == if input[i] == '-' then '_' else input[i]
    ensures '-' !in ReplaceDashesWithUnderscore(input)
  {
    if input != [] {
      ReplaceDashesPointwise(input[1..]);
      var output := ReplaceDashesWithUnderscore(input);
      forall i | 0 < i < |input|
        ensures output[i] == if input[i] == '-' then '_' else input[i]
      {
        assert output[i] == ReplaceDashesWithUnderscore(input[1..])[i - 1];
        assert input[i] == input[1..][i - 1];
      }
    }
  }

  /** Sanitising twice is the same as sanitising once. */
  lemma ReplaceDashesIdempotent(input: string)
    ensures ReplaceDashesWithUnderscore(ReplaceDashesWithUnderscore(input))
         == ReplaceDashesWithUnderscore(input)
  {
    var once := ReplaceDashesWithUnderscore(input);
    ReplaceDashesPointwise(input);
    ReplaceDashesPointwise(once);
    assert forall i :: 0 <= i < |once| ==> once[i] != '-';
  }

  /** A name without dashes is left as it is. */
  lemma ReplaceDashesKeepsDashFree(input: string)
    requires '-' !in input
    ensures ReplaceDashesWithUnderscore(input) == input
  {
    ReplaceDashesPointwise(input);
    assert forall i :: 0 <= i < |input| ==> input[i] != '-';
  }

  /** Sanitising distributes over concatenation. */
  lemma {:induction false} ReplaceDashesAppend(a: string, b: string)
    ensures ReplaceDashesWithUnderscore(a + b)
         == ReplaceDashesWithUnderscore(a) + ReplaceDashesWithUnderscore(b)
  {
    if a != [] {
      assert (a + b)[0] == a[0];
      assert (a + b)[1..] == a[1..] + b;
      ReplaceDashesAppend(a[1..], b);
      AppendAssoc([Underscored(a[0])], ReplaceDashesWithUnderscore(a[1..]), ReplaceDashesWithUnderscore(b));
    } else {
      assert a + b == b;
    }
  }

  predicate IsDigit(c: char) {
    '0' <= c <= '9'
  }

  function DigitChar(d: nat): (c: char)
    requires d < 10
    ensures IsDigit(c)
  {
    "0123456789"[d]
  }

  function DigitValue(c: char): (d: nat)
    requires IsDigit(c)
    ensures d < 10
  {
    (c as int - '0' as int) as nat
  }

  lemma DigitRoundTrip(d: nat)
    requires d < 10
    ensures DigitValue(DigitChar(d)) == d
  {
  }

  /**
   The decimal rendering of a non-negative count, most significant digit
   first, without leading zeros.
   */
  function NatToString(n: nat): (s: string)
    ensures |s| > 0
    ensures forall i :: 0 <= i < |s| ==> IsDigit(s[i])
    ensures |s| > 1 ==> s[0] != '0'
  {
    if n < 10 then [DigitChar(n)]
    else NatToString(n / 10) + [DigitChar(n % 10)]
  }

  /** Reads a string of decimal digits back as a number. */
  function ParseNat(s: string): nat
    requires forall i :: 0 <= i < |s| ==> IsDigit(s[i])
  {
    if s == [] then 0
    else ParseNat(s[..|s| - 1]) * 10 + DigitValue(s[|s| - 1])
  }

  /** The rendered count reads back as the count itself. */
  lemma {:induction false} NatToStringRoundTrip(n: nat)
    ensures ParseNat(NatToString(n)) == n
  {
    var s := NatToString(n);
    if n < 10 {
      DigitRoundTrip(n);
    } else {
      var prefix := NatToString(n / 10);
      assert s[..|s| - 1] == prefix;
      NatToStringRoundTrip(n / 10);
      DigitRoundTrip(n % 10);
    }
  }

  /** Different counts render differently. */
  lemma NatToStringInjective(m: nat, n: nat)
    requires NatToString(m) == NatToString(n)
    ensures m == n
  {
    NatToStringRoundTrip(m);
    NatToStringRoundTrip(n);
  }
}
