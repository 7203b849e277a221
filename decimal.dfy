/** Decimal text of non-negative integers, as the carousel uses it:
    `String(tabIndex)` to produce the text that `data-tab` / `data-tab-index`
    attributes are compared with, and `parseInt(attr, 10)` to read a button's
    index back. */
module Decimal {

  predicate IsDigit(c: char) {
    '0' <= c <= '9'
  }

  /** A nonempty string of ASCII digits: the only attribute text the model
      lets `parseInt(_, 10)` see (it then never yields NaN). */
  predicate IsDigits(s: string) {
    |s| > 0 && forall k :: 0 <= k < |s| ==> IsDigit(s[k])
  }

  function DigitChar(d: nat): (c: char)
    requires d < 10
    ensures IsDigit(c)
  {
    ['0', '1', '2', '3', '4', '5', '6', '7', '8', '9'][d]
  }

  function DigitValue(c: char): (d: nat)
    requires IsDigit(c)
    ensures d < 10
  {
    (c as int - '0' as int)
  }

  lemma DigitRoundTrip(d: nat)
    requires d < 10
    ensures DigitValue(DigitChar(d)) == d
  {
  }

  /** `String(n)` for a non-negative integer: the shortest decimal numeral. */
  function NatToString(n: nat): (s: string)
    ensures IsDigits(s)
    ensures s[0] == '0' ==> s == "0"
    decreases n
  {
    if n < 10 then [DigitChar(n)] else NatToString(n / 10) + [DigitChar(n % 10)]
  }

  /** `parseInt(s, 10)` on a string of digits: the value of the numeral,
      leading zeros allowed ("007" reads as 7). */
  function DigitsValue(s: string): (n: nat)
    requires forall k :: 0 <= k < |s| ==> IsDigit(s[k])
    decreases |s|
  {
    if |s| == 0 then 0 else DigitsValue(s[..|s| - 1]) * 10 + DigitValue(s[|s| - 1])
  }

  /** Reading back the text `String(n)` gives `n`. */
  lemma {:induction false} ParseOfString(n: nat)
    ensures DigitsValue(NatToString(n)) == n
    decreases n
  {
    DigitRoundTrip(n % 10);
    if n >= 10 {
      var s := NatToString(n / 10);
      var t := s + [DigitChar(n % 10)];
      assert t[..|t| - 1] == s;
      ParseOfString(n / 10);
    }
  }

  /** Distinct indices have distinct texts, so a string comparison against
      `String(i)` singles out exactly the elements tagged with index `i`. */
  lemma StringInjective(i: nat, j: nat)
    ensures NatToString(i) == NatToString(j) <==> i == j
  {
    ParseOfString(i);
    ParseOfString(j);
  }

  /** A canonical digit string (no leading zero unless it is "0") is the
      text `String(n)` of its value. The converse, that every `String(n)` is
      canonical, is `NatToString`'s own postcondition. */
  lemma {:induction false} StringOfParse(s: string)
    requires IsDigits(s)
    requires s[0] == '0' ==> s == "0"
    ensures NatToString(DigitsValue(s)) == s
    decreases |s|
  {
    var last := s[|s| - 1];
    var init := s[..|s| - 1];
    var d := DigitValue(last);
    assert DigitChar(d) == last;
    if |s| == 1 {
      assert DigitsValue(init) == 0;
    } else {
      assert init[0] == s[0];
      StringOfParse(init);
      var v := DigitsValue(init);
      LeadingDigitPositive(init);
      assert v >= 1;
      assert DigitsValue(s) / 10 == v && DigitsValue(s) % 10 == d;
      assert s == init + [last];
    }
  }

  lemma {:induction false} LeadingDigitPositive(s: string)
    requires IsDigits(s)
    requires s[0] != '0'
    ensures DigitsValue(s) >= 1
    decreases |s|
  {
    if |s| > 1 {
      var init := s[..|s| - 1];
      assert init[0] == s[0];
      LeadingDigitPositive(init);
    }
  }
}
