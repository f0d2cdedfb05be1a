/**
  The lecture-count box of the subject detail modal. What the user typed is
  committed on blur: it is read with `parseInt(text, 10)`, a failed read
  gives 0, a negative count is raised to 0, and the box then shows the
  committed number in decimal.
 */
module LectureInput {
  import opened Options

  /** The white space and line terminators ECMAScript's parseInt skips at the start. */
  predicate IsLeadingSpace(c: char) {
    var n := c as int;
    n == 0x09 || n == 0x0A || n == 0x0B || n == 0x0C || n == 0x0D || n == 0x20 ||
    n == 0xA0 || n == 0x1680 || (0x2000 <= n <= 0x200A) || n == 0x2028 || n == 0x2029 ||
    n == 0x202F || n == 0x205F || n == 0x3000 || n == 0xFEFF
  }

  predicate IsDigit(c: char) {
    '0' <= c <= '9'
  }

  predicate AllDigits(s: string) {
    forall i :: 0 <= i < |s| ==> IsDigit(s[i])
  }

  /** The text after its leading white space. */
  function TrimStart(s: string): (r: string)
    ensures |r| <= |s| && r == s[|s| - |r|..]
    ensures r == [] || !IsLeadingSpace(r[0])
    ensures (s == [] || !IsLeadingSpace(s[0])) ==> r == s
  {
    if s != [] && IsLeadingSpace(s[0]) then TrimStart(s[1..]) else s
  }

  /** What TrimStart drops is white space only. */
  lemma {:induction false} TrimStartDropsOnlySpace(s: string)
    ensures forall i :: 0 <= i < |s| - |TrimStart(s)| ==> IsLeadingSpace(s[i])
  {
    if s != [] && IsLeadingSpace(s[0]) {
      TrimStartDropsOnlySpace(s[1..]);
      forall i | 1 <= i < |s| - |TrimStart(s)| ensures IsLeadingSpace(s[i]) {
        assert s[i] == s[1..][i - 1];
      }
    }
  }

  /** The longest prefix made of decimal digits. */
  function DigitPrefix(s: string): (r: string)
    ensures |r| <= |s| && r == s[..|r|]
    ensures AllDigits(r)
    ensures |r| == |s| || !IsDigit(s[|r|])
  {
    if s != [] && IsDigit(s[0]) then [s[0]] + DigitPrefix(s[1..]) else []
  }

  /** The value of a string of decimal digits, most significant first. */
  function DigitsValue(ds: string): nat
    requires AllDigits(ds)
  {
    if ds == [] then 0 else DigitsValue(ds[..|ds| - 1]) * 10 + (ds[|ds| - 1] - '0') as int
  }

  /**
    `parseInt(text, 10)`: skip leading white space, read an optional sign,
    then the longest run of digits; None (NaN) when there is no digit.
   */
  function ParseInt(text: string): (r: Option<int>)
    ensures r.None? <==>
      var t := TrimStart(text);
      var u := if t != [] && (t[0] == '-' || t[0] == '+') then t[1..] else t;
      u == [] || !IsDigit(u[0])
  {
    var t := TrimStart(text);
    var negative := t != [] && t[0] == '-';
    var unsigned := if t != [] && (t[0] == '-' || t[0] == '+') then t[1..] else t;
    var digits := DigitPrefix(unsigned);
    if digits == [] then None
    else
      var magnitude: int := DigitsValue(digits);
      Some(if negative then -magnitude else magnitude)
  }

  /** The decimal text of a count, as Number.prototype.toString writes it for counts below 10^21. */
  function DecimalString(k: nat): (r: string)
    ensures r != [] && AllDigits(r)
    ensures k != 0 ==> r[0] != '0'
  {
    var last := ['0' + (k % 10) as char];
    if k < 10 then last else DecimalString(k / 10) + last
  }

  lemma {:induction false} DecimalStringValue(k: nat)
    ensures DigitsValue(DecimalString(k)) == k
  {
    if k >= 10 {
      DecimalStringValue(k / 10);
      var s := DecimalString(k);
      assert s[..|s| - 1] == DecimalString(k / 10);
    }
  }

  /** The digit run at the start of digits + tail, when tail does not start with a digit. */
  lemma {:induction false} DigitPrefixStops(ds: string, tail: string)
    requires AllDigits(ds)
    requires tail == [] || !IsDigit(tail[0])
    ensures DigitPrefix(ds + tail) == ds
  {
    if ds != [] {
      assert (ds + tail)[1..] == ds[1..] + tail;
      DigitPrefixStops(ds[1..], tail);
    } else {
      assert ds + tail == tail;
    }
  }

  /**
    parseInt reads back the decimal text of any count, also when the text
    goes on with something that is not a digit ("12.5", "3e2", "7 lectures").
   */
  lemma ParseDecimal(k: nat, tail: string)
    requires tail == [] || !IsDigit(tail[0])
    ensures ParseInt(DecimalString(k) + tail) == Some(k)
  {
    var s := DecimalString(k);
    DigitPrefixStops(s, tail);
    DecimalStringValue(k);
    assert (s + tail)[0] == s[0];
    ParseLeadingDigits(s + tail);
  }

  /** Text that starts with a digit reads as the value of its leading digit run. */
  lemma ParseLeadingDigits(text: string)
    requires text != [] && IsDigit(text[0])
    ensures ParseInt(text) == Some(DigitsValue(DigitPrefix(text)))
  {
    assert !IsLeadingSpace(text[0]);
    assert TrimStart(text) == text;
  }

  /** A minus sign before a count reads as its negation. */
  lemma ParseNegativeDecimal(k: nat)
    ensures ParseInt("-" + DecimalString(k)) == Some(-(k as int))
  {
    var s := DecimalString(k);
    var text := "-" + s;
    assert text[0] == '-' && text[1..] == s;
    DigitRunValue(s, k);
    assert DigitsValue(DigitPrefix(text[1..])) == k;
    ParseMinusDigits(text);
  }

  /** The digit run of a count's decimal text is that text, with the count as its value. */
  lemma DigitRunValue(s: string, k: nat)
    requires s == DecimalString(k)
    ensures DigitPrefix(s) == s && DigitsValue(DigitPrefix(s)) == k
  {
    DigitPrefixStops(s, []);
    assert s + [] == s;
    DecimalStringValue(k);
  }

  /** Text that starts with a minus sign and a digit reads as the negated value of the digit run. */
  lemma ParseMinusDigits(text: string)
    requires |text| >= 2 && text[0] == '-' && IsDigit(text[1])
    ensures ParseInt(text) == Some(-(DigitsValue(DigitPrefix(text[1..])) as int))
  {
    assert !IsLeadingSpace(text[0]);
    assert TrimStart(text) == text;
  }

  /** The count committed on blur: 0 for unreadable text, never negative. */
  function CommittedLectureCount(text: string): (v: int)
    ensures v >= 0
    ensures ParseInt(text) == Some(v) || v == 0
    ensures ParseInt(text).Some? && ParseInt(text).value >= 0 ==> v == ParseInt(text).value
  {
    match ParseInt(text)
    case None => 0
    case Some(n) => if n < 0 then 0 else n
  }

  /** Committing the decimal text of a count commits that count. */
  lemma CommitDecimal(k: nat)
    ensures CommittedLectureCount(DecimalString(k)) == k
  {
    ParseDecimal(k, []);
    assert DecimalString(k) + [] == DecimalString(k);
  }

  /** Committing again what the box shows after a commit changes nothing. */
  lemma CommitIdempotent(text: string)
    ensures var v := CommittedLectureCount(text);
      CommittedLectureCount(DecimalString(v)) == v
  {
    CommitDecimal(CommittedLectureCount(text));
  }

  /** A typed negative count commits as 0. */
  lemma CommitNegative(k: nat)
    ensures CommittedLectureCount("-" + DecimalString(k)) == 0
  {
    ParseNegativeDecimal(k);
  }
}
