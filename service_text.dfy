/** The years-of-service text: a month total written as
    "Y years and M months", "Y years" or "M months", with Python's decimal
    rendering of integers. `ReadServiceText` reads such a text back; the
    round-trip lemma shows the text loses nothing for a non-negative total. */
module ServiceText {
  import opened Seqs

  predicate IsDigit(c: char) {
    '0' <= c <= '9'
  }

  function DigitChar(d: nat): (c: char)
    requires d < 10
    ensures IsDigit(c)
  {
    ('0' as int + d) as char
  }

  function DigitValue(c: char): (d: nat)
    requires IsDigit(c)
    ensures d < 10
  {
    c as int - '0' as int
  }

  predicate AllDigits(s: string) {
    forall i :: 0 <= i < |s| ==> IsDigit(s[i])
  }

  /** `str(n)` for a non-negative integer: no sign, no leading zeros. */
  function Decimal(n: nat): (s: string)
    ensures |s| >= 1 && AllDigits(s)
    ensures s[0] == '0' <==> n == 0
  {
    if n < 10 then [DigitChar(n)] else Decimal(n / 10) + [DigitChar(n % 10)]
  }

  /** The number a digit string denotes. */
  function DigitsValue(s: string): nat
    requires AllDigits(s)
  {
    if s == [] then 0 else DigitsValue(s[..|s| - 1]) * 10 + DigitValue(s[|s| - 1])
  }

  lemma {:induction false} DecimalValue(n: nat)
    ensures DigitsValue(Decimal(n)) == n
  {
    var s := Decimal(n);
    if n < 10 {
      assert s[..|s| - 1] == [];
    } else {
      assert s[..|s| - 1] == Decimal(n / 10);
      DecimalValue(n / 10);
    }
  }

  /** Length of the longest all-digit prefix of `s`. */
  function LeadingDigits(s: string): (k: nat)
    ensures k <= |s|
    ensures forall i :: 0 <= i < k ==> IsDigit(s[i])
    ensures k < |s| ==> !IsDigit(s[k])
  {
    if s == [] || !IsDigit(s[0]) then 0 else 1 + LeadingDigits(s[1..])
  }

  /** A number followed by a non-digit reads back as that number. */
  lemma ReadDecimal(n: nat, rest: string)
    requires rest == [] || !IsDigit(rest[0])
    ensures LeadingDigits(Decimal(n) + rest) == |Decimal(n)|
    ensures (Decimal(n) + rest)[..|Decimal(n)|] == Decimal(n)
    ensures (Decimal(n) + rest)[|Decimal(n)|..] == rest
    ensures DigitsValue(Decimal(n)) == n
  {
    DecimalValue(n);
  }

  const YearsWord := " years"
  const MonthsWord := " months"
  const YearsAndWord := " years and "

  /** Reads a text of one of the three shapes back into a month total. */
  function ReadServiceText(s: string): Option<int> {
    var k := LeadingDigits(s);
    if k == 0 then None else ReadUnits(DigitsValue(s[..k]), s[k..])
  }

  /** What follows the leading number `a`. */
  function ReadUnits(a: nat, rest: string): Option<int> {
    if rest == MonthsWord then Some(a)
    else if rest == YearsWord then Some(12 * a)
    else if |rest| >= |YearsAndWord| && rest[..|YearsAndWord|] == YearsAndWord then
      ReadMonthsAfterYears(a, rest[|YearsAndWord|..])
    else None
  }

  /** What follows "<a> years and ". */
  function ReadMonthsAfterYears(a: nat, tail: string): Option<int> {
    var k := LeadingDigits(tail);
    if k > 0 && tail[k..] == MonthsWord then Some(12 * a + DigitsValue(tail[..k])) else None
  }

  /** The leading number of a text is read whole, and the rest of the text
      decides the units. */
  lemma ReadLeading(n: nat, rest: string)
    requires rest == [] || !IsDigit(rest[0])
    ensures ReadServiceText(Decimal(n) + rest) == ReadUnits(n, rest)
  {
    ReadDecimal(n, rest);
  }

  lemma ReadMonthsOnly(m: nat)
    ensures ReadServiceText(Decimal(m) + MonthsWord) == Some(m)
  {
    ReadLeading(m, MonthsWord);
  }

  lemma ReadYearsOnly(y: nat)
    ensures ReadServiceText(Decimal(y) + YearsWord) == Some(12 * y)
  {
    ReadLeading(y, YearsWord);
    assert MonthsWord != YearsWord by {
      assert |MonthsWord| != |YearsWord|;
    }
  }

  lemma ReadUnitsYearsAnd(y: nat, tail: string)
    ensures ReadUnits(y, YearsAndWord + tail) == ReadMonthsAfterYears(y, tail)
  {
    var rest := YearsAndWord + tail;
    assert rest != MonthsWord && rest != YearsWord by {
      assert |rest| != |MonthsWord| && |rest| != |YearsWord|;
    }
    assert rest[..|YearsAndWord|] == YearsAndWord;
    assert rest[|YearsAndWord|..] == tail;
  }

  lemma ReadMonthsTail(y: nat, m: nat)
    ensures ReadMonthsAfterYears(y, Decimal(m) + MonthsWord) == Some(12 * y + m)
  {
    ReadDecimal(m, MonthsWord);
  }

  lemma ReadYearsAnd(y: nat, tail: string)
    ensures ReadServiceText(Decimal(y) + (YearsAndWord + tail)) == ReadMonthsAfterYears(y, tail)
  {
    var rest := YearsAndWord + tail;
    assert rest[0] == ' ';
    ReadLeading(y, rest);
    ReadUnitsYearsAnd(y, tail);
  }

  lemma ReadYearsAndMonths(y: nat, m: nat)
    ensures ReadServiceText(Decimal(y) + (YearsAndWord + (Decimal(m) + MonthsWord))) == Some(12 * y + m)
  {
    ReadYearsAnd(y, Decimal(m) + MonthsWord);
    ReadMonthsTail(y, m);
  }

  /** The text for a number of years and months: both parts when both are
      positive, otherwise the years alone when positive, else the months.
      It always starts with a digit. */
  function Spell(years: int, months: nat): (text: string)
    ensures |text| > 0 && IsDigit(text[0])
  {
    if years > 0 && months > 0 then Decimal(years) + (YearsAndWord + (Decimal(months) + MonthsWord))
    else if years > 0 then Decimal(years) + YearsWord
    else Decimal(months) + MonthsWord
  }

  /** The text for an inclusive month total: years is the floor quotient by
      12 and months the (non-negative) remainder. Like every duration text,
      it starts with a digit. */
  function Format(total: int): (text: string)
    ensures |text| > 0 && IsDigit(text[0])
  {
    Spell(total / 12, total % 12)
  }

  /** Years and months read back as their month total. */
  lemma ReadSpell(years: nat, months: nat)
    ensures ReadServiceText(Spell(years, months)) == Some(12 * years + months)
  {
    var text := Spell(years, months);
    if years > 0 && months > 0 {
      assert text == Decimal(years) + (YearsAndWord + (Decimal(months) + MonthsWord));
      ReadYearsAndMonths(years, months);
    } else if years > 0 {
      assert text == Decimal(years) + YearsWord;
      ReadYearsOnly(years);
    } else {
      assert text == Decimal(months) + MonthsWord;
      ReadMonthsOnly(months);
    }
  }

  /** The text reads back as the total (years * 12 + months) for a
      non-negative total; a negative total shows only its remainder. */
  lemma FormatRoundTrip(total: int)
    ensures ReadServiceText(Format(total)) == Some(if total >= 0 then total else total % 12)
  {
    var years, months := total / 12, total % 12;
    if years >= 0 {
      ReadSpell(years, months);
    } else {
      ReadMonthsOnly(months);
    }
  }

  lemma FormatFourteen()
    ensures Format(14) == "1 years and 2 months"
  {
    assert 14 / 12 == 1 && 14 % 12 == 2;
    assert Decimal(1) == "1" && Decimal(2) == "2";
  }

  lemma FormatTwelve()
    ensures Format(12) == "1 years"
  {
    assert Decimal(1) == "1";
    calc {
      Format(12);
      Spell(1, 0);
      Decimal(1) + YearsWord;
      "1 years";
    }
  }

  lemma FormatTwo()
    ensures Format(2) == "2 months"
  {
    assert Decimal(2) == "2";
    calc {
      Format(2);
      Spell(0, 2);
      Decimal(2) + MonthsWord;
      "2 months";
    }
  }

  /** The three shapes for the examples 14, 12 and 2 months. */
  lemma FormatExamples()
    ensures Format(14) == "1 years and 2 months"
    ensures Format(12) == "1 years"
    ensures Format(2) == "2 months"
  {
    FormatFourteen();
    FormatTwelve();
    FormatTwo();
  }
}
