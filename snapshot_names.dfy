/**
  The file-name rule of the snapshot directory: snapshot `n` is stored as
  `"0" + n.to_s + ".jpg"` when `n < 10` and as `n.to_s + ".jpg"` otherwise.
  `NatToString` models Ruby's `Integer#to_s` on a non-negative integer, and
  `ParseFileName` is the independent reading back of a name into its index.
 */
module SnapshotNames {
  import opened Wrappers

  const Extension: string := ".jpg"

  predicate IsDigit(c: char) {
    '0' <= c <= '9'
  }

  predicate AllDigits(s: string) {
    forall k :: 0 <= k < |s| ==> IsDigit(s[k])
  }

  /** The decimal digit character for `d`. */
  function DigitChar(d: nat): (c: char)
    requires d < 10
    ensures IsDigit(c)
  {
    (('0' as int) + d) as char
  }

  /** The value of a decimal digit character. */
  function DigitValue(c: char): (d: nat)
    requires IsDigit(c)
    ensures d < 10 && DigitChar(d) == c
  {
    (c as int) - ('0' as int)
  }

  /** Ruby's `Integer#to_s` for a non-negative integer: the shortest decimal numeral. */
  function NatToString(n: nat): (s: string)
    ensures AllDigits(s)
    ensures n < 10 ==> |s| == 1
    ensures 10 <= n < 100 ==> |s| == 2
    ensures 10 <= n ==> |s| >= 2 && s[0] != '0'
    decreases n
  {
    if n < 10 then [DigitChar(n)] else NatToString(n / 10) + [DigitChar(n % 10)]
  }

  /** The number a string of decimal digits denotes (the empty string denotes 0). */
  function DigitsValue(s: string): nat
    requires AllDigits(s)
    decreases |s|
  {
    if s == [] then 0 else 10 * DigitsValue(s[..|s| - 1]) + DigitValue(s[|s| - 1])
  }

  /** Reading the numeral back gives the number. */
  lemma {:induction false} NatToStringRoundTrip(n: nat)
    ensures DigitsValue(NatToString(n)) == n
    decreases n
  {
    var s := NatToString(n);
    if n >= 10 {
      NatToStringRoundTrip(n / 10);
      assert s[..|s| - 1] == NatToString(n / 10);
    }
  }

  /** The name of the snapshot file for index `n` (viewer.rb, the file-name selection). */
  function FileName(n: nat): (name: string)
    ensures |name| > |Extension| && name[|name| - |Extension|..] == Extension
    ensures AllDigits(name[..|name| - |Extension|])
    ensures n <= 99 ==> |name| == 2 + |Extension|
  {
    if n < 10 then "0" + NatToString(n) + Extension else NatToString(n) + Extension
  }

  /** The stem of a snapshot file name, read back as an index; `None` for any other name. */
  function ParseFileName(name: string): (r: Option<nat>)
    ensures r.Some? ==> |name| > |Extension| && name[|name| - |Extension|..] == Extension
  {
    if |name| > |Extension| && name[|name| - |Extension|..] == Extension
       && AllDigits(name[..|name| - |Extension|])
    then Some(DigitsValue(name[..|name| - |Extension|]))
    else None
  }

  /** Every snapshot name reads back as its own index. */
  lemma FileNameRoundTrip(n: nat)
    ensures ParseFileName(FileName(n)) == Some(n)
  {
    var name := FileName(n);
    var stem := name[..|name| - |Extension|];
    NatToStringRoundTrip(n);
    if n < 10 {
      assert stem == "0" + NatToString(n);
      assert stem[..|stem| - 1] == "0";
      assert DigitsValue("0") == 0;
    } else {
      assert stem == NatToString(n);
    }
  }

  /** Distinct indices never share a file, so each snapshot has its own name. */
  lemma FileNameInjective(m: nat, n: nat)
    ensures FileName(m) == FileName(n) <==> m == n
  {
    if FileName(m) == FileName(n) {
      FileNameRoundTrip(m);
      FileNameRoundTrip(n);
    }
  }

  /**
    For every index the viewer keeps (at most 99) the stem is exactly two
    digits: the tens digit and the units digit of the index.
   */
  lemma FileNameTwoDigitStem(n: nat)
    requires n <= 99
    ensures |FileName(n)| == 6
    ensures FileName(n)[0] == DigitChar(n / 10) && FileName(n)[1] == DigitChar(n % 10)
    ensures FileName(n)[2..] == Extension
  {
    if n >= 10 {
      assert NatToString(n) == NatToString(n / 10) + [DigitChar(n % 10)];
      assert NatToString(n / 10) == [DigitChar(n / 10)];
    }
  }

  /** Lexicographic order on strings, the order the converter is assumed to take `*.jpg` frames in. */
  predicate LexLess(a: string, b: string)
    decreases |a|
  {
    if a == [] then b != []
    else b != [] && (a[0] < b[0] || (a[0] == b[0] && LexLess(a[1..], b[1..])))
  }

  /**
    The zero padding makes the lexicographic order of the names the order of
    the indices, for every index the viewer keeps.
   */
  lemma FileNameOrder(m: nat, n: nat)
    requires m < n <= 99
    ensures LexLess(FileName(m), FileName(n))
  {
    FileNameTwoDigitStem(m);
    FileNameTwoDigitStem(n);
    var a, b := FileName(m), FileName(n);
    if m / 10 == n / 10 {
      assert m % 10 < n % 10;
      assert a[1..][0] == a[1] && b[1..][0] == b[1];
    } else {
      assert m / 10 < n / 10;
    }
  }
}
