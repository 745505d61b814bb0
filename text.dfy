/**
 * Character classes, decimal numerals and the two `sscanf` numeric
 * conversions (`%d`, `%llu`) the dump driver relies on, in the "C" locale.
 */
module Text {
  import opened Wrappers

  /** `isgraph` in the "C" locale: printable and not a space. */
  predicate IsGraph(c: char) {
    '!' <= c <= '~'
  }

  /** `isspace` in the "C" locale: space, \t, \n, \v, \f, \r. */
  predicate IsSpace(c: char) {
    c == ' ' || '\t' <= c <= '\r'
  }

  predicate IsDigit(c: char) {
    '0' <= c <= '9'
  }

  predicate AllDigits(s: seq<char>) {
    forall i :: 0 <= i < |s| ==> IsDigit(s[i])
  }

  function DigitChar(d: nat): (c: char)
    requires d < 10
    ensures IsDigit(c) && DigitOf(c) == d
  {
    ('0' as int + d) as char
  }

  function DigitOf(c: char): (d: nat)
    requires IsDigit(c)
    ensures d < 10
  {
    c as int - '0' as int
  }

  /** The numeric value of a run of decimal digits, most significant first. */
  function DigitsValue(s: seq<char>): nat
    requires AllDigits(s)
  {
    if s == [] then 0 else DigitsValue(s[..|s| - 1]) * 10 + DigitOf(s[|s| - 1])
  }

  /** `snprintf("%u", n)`: the shortest decimal numeral of `n`. */
  function Decimal(n: nat): (r: seq<char>)
    ensures |r| >= 1 && AllDigits(r)
    ensures |r| > 1 ==> r[0] != '0'
  {
    if n < 10 then [DigitChar(n)] else Decimal(n / 10) + [DigitChar(n % 10)]
  }

  lemma {:induction false} DecimalRoundTrip(n: nat)
    ensures DigitsValue(Decimal(n)) == n
  {
    if n >= 10 {
      DecimalRoundTrip(n / 10);
      var d := Decimal(n);
      assert d[..|d| - 1] == Decimal(n / 10);
    }
  }

  function Pow10(k: nat): (r: nat)
    ensures r >= 1
  {
    if k == 0 then 1 else 10 * Pow10(k - 1)
  }

  /** A number below 10^k has at most k decimal digits. */
  lemma {:induction false} DecimalLength(n: nat, k: nat)
    requires 1 <= k && n < Pow10(k)
    ensures |Decimal(n)| <= k
  {
    if n >= 10 {
      assert k >= 2;
      DecimalLength(n / 10, k - 1);
    }
  }

  /** The first position at or after `i` that does not hold a white-space character. */
  function SkipSpace(s: seq<char>, i: nat): (j: nat)
    requires i <= |s|
    ensures i <= j <= |s|
    ensures forall k :: i <= k < j ==> IsSpace(s[k])
    ensures j == |s| || !IsSpace(s[j])
    decreases |s| - i
  {
    if i < |s| && IsSpace(s[i]) then SkipSpace(s, i + 1) else i
  }

  /** The end of the maximal run of digits that starts at `i`. */
  function DigitRun(s: seq<char>, i: nat): (j: nat)
    requires i <= |s|
    ensures i <= j <= |s|
    ensures AllDigits(s[i..j])
    ensures j == |s| || !IsDigit(s[j])
    decreases |s| - i
  {
    if i < |s| && IsDigit(s[i]) then DigitRun(s, i + 1) else i
  }

  /** A converted number and the position just past the characters it consumed. */
  datatype Scanned<+T> = Scanned(value: T, next: nat)

  datatype Numeral = Numeral(negative: bool, magnitude: nat, next: nat)

  /**
   * The text shared by both numeric conversions: leading white space, an
   * optional sign, then at least one digit.  `None` is a matching failure.
   */
  function ScanNumeral(s: seq<char>, i: nat): (r: Option<Numeral>)
    requires i <= |s|
    ensures r.Some? ==> i < r.value.next <= |s| && IsDigit(s[r.value.next - 1])
    ensures r.Some? ==> r.value.next == |s| || !IsDigit(s[r.value.next])
  {
    var j := SkipSpace(s, i);
    var signed := j < |s| && (s[j] == '-' || s[j] == '+');
    var k := if signed then j + 1 else j;
    var e := DigitRun(s, k);
    if e == k then None
    else Some(Numeral(signed && s[j] == '-', DigitsValue(s[k..e]), e))
  }

  /** `%d`.  The signed 32-bit range is not enforced. */
  function ScanInt(s: seq<char>, i: nat): (r: Option<Scanned<int>>)
    requires i <= |s|
    ensures r.Some? <==> ScanNumeral(s, i).Some?
    ensures r.Some? ==> r.value.next == ScanNumeral(s, i).value.next
  {
    match ScanNumeral(s, i)
    case None => None
    case Some(n) =>
      var m: int := n.magnitude;
      var v: int := if n.negative then -m else m;
      Some(Scanned(v, n.next))
  }

  /** `%d` reads the digits after the white space and the optional sign, negated after a minus sign. */
  lemma ScanIntValue(s: seq<char>, i: nat)
    requires i <= |s| && ScanInt(s, i).Some?
    ensures var j := SkipSpace(s, i);
            var r := ScanInt(s, i).value;
            && j < r.next <= |s|
            && (s[j] == '-' ==> r.value == -(DigitsValue(s[j + 1..r.next]) as int))
            && (s[j] == '+' ==> r.value == DigitsValue(s[j + 1..r.next]))
            && (s[j] != '-' && s[j] != '+' ==> r.value == DigitsValue(s[j..r.next]))
  {
    var n := ScanNumeral(s, i).value;
    var j := SkipSpace(s, i);
    var k := if j < |s| && (s[j] == '-' || s[j] == '+') then j + 1 else j;
    assert n.magnitude == DigitsValue(s[k..n.next]);
  }

  const U64Modulus: nat := 0x1_0000_0000_0000_0000

  /**
   * `%llu` under glibc, which converts with `strtoull`: an out-of-range
   * magnitude saturates to ULLONG_MAX and a minus sign negates modulo 2^64.
   */
  function ScanU64(s: seq<char>, i: nat): (r: Option<Scanned<nat>>)
    requires i <= |s|
    ensures r.Some? <==> ScanNumeral(s, i).Some?
    ensures r.Some? ==> r.value.value < U64Modulus
    ensures r.Some? && !ScanNumeral(s, i).value.negative && ScanNumeral(s, i).value.magnitude < U64Modulus
            ==> r.value.value == ScanNumeral(s, i).value.magnitude
  {
    match ScanNumeral(s, i)
    case None => None
    case Some(n) =>
      var v: nat := if n.magnitude >= U64Modulus then U64Modulus - 1
               else if n.negative then (U64Modulus - n.magnitude) % U64Modulus
               else n.magnitude;
      Some(Scanned(v, n.next))
  }

  /** Skipping white space from `i` stops at the first non-space `j`. */
  lemma {:induction false} SkipSpaceTo(s: seq<char>, i: nat, j: nat)
    requires i <= j <= |s|
    requires forall k :: i <= k < j ==> IsSpace(s[k])
    requires j == |s| || !IsSpace(s[j])
    ensures SkipSpace(s, i) == j
    decreases j - i
  {
    if i < j {
      SkipSpaceTo(s, i + 1, j);
    }
  }

  /** Skipping white space in a suffix of `s` is skipping it in `s`, shifted by the suffix's offset. */
  lemma {:induction false} SkipSpaceShift(s: seq<char>, o: nat, i: nat)
    requires o <= i <= |s|
    ensures SkipSpace(s, i) == o + SkipSpace(s[o..], i - o)
    decreases |s| - i
  {
    if i < |s| && IsSpace(s[i]) {
      assert s[o..][i - o] == s[i];
      SkipSpaceShift(s, o, i + 1);
    }
  }

  /** The digit run in a suffix of `s` is the digit run in `s`, shifted by the suffix's offset. */
  lemma {:induction false} DigitRunShift(s: seq<char>, o: nat, i: nat)
    requires o <= i <= |s|
    ensures DigitRun(s, i) == o + DigitRun(s[o..], i - o)
    decreases |s| - i
  {
    if i < |s| && IsDigit(s[i]) {
      assert s[o..][i - o] == s[i];
      DigitRunShift(s, o, i + 1);
    }
  }

  /** Where the digits of a numeral scanned from `i` begin: after the white space and any sign. */
  function DigitsStart(s: seq<char>, i: nat): (k: nat)
    requires i <= |s|
    ensures i <= k <= |s|
  {
    var j := SkipSpace(s, i);
    if j < |s| && (s[j] == '-' || s[j] == '+') then j + 1 else j
  }

  /** No numeral starts at `i` exactly when no digit follows the white space and sign. */
  lemma ScanNumeralNone(s: seq<char>, i: nat)
    requires i <= |s|
    ensures ScanNumeral(s, i).None? <==> DigitRun(s, DigitsStart(s, i)) == DigitsStart(s, i)
  {
  }

  /** Whether a numeral starts at `i` depends only on the text from `o` on. */
  lemma ScanNumeralShift(s: seq<char>, o: nat, i: nat)
    requires o <= i <= |s|
    ensures ScanNumeral(s, i).None? <==> ScanNumeral(s[o..], i - o).None?
  {
    var t := s[o..];
    SkipSpaceShift(s, o, i);
    var j := SkipSpace(s, i);
    if j < |s| {
      assert t[j - o] == s[j];
    }
    assert DigitsStart(s, i) == o + DigitsStart(t, i - o);
    DigitRunShift(s, o, DigitsStart(s, i));
    ScanNumeralNone(s, i);
    ScanNumeralNone(t, i - o);
  }

  /** The digit run from `i` stops at the first non-digit `j`. */
  lemma {:induction false} DigitRunTo(s: seq<char>, i: nat, j: nat)
    requires i <= j <= |s|
    requires forall k :: i <= k < j ==> IsDigit(s[k])
    requires j == |s| || !IsDigit(s[j])
    ensures DigitRun(s, i) == j
    decreases j - i
  {
    if i < j {
      DigitRunTo(s, i + 1, j);
    }
  }
}
