/** Reformatting the ceremony date from the ISO form `YYYY-MM-DD` that the date
    input produces to the Brazilian form `DD/MM/YYYY` drawn on the certificate. */
module Dates {
  import opened Text

  /** What a JavaScript template literal prints for a destructured element that
      the array does not have. */
  const Undefined: string := "undefined"

  /** Element `i` of a destructuring pattern over `parts`. */
  function Destructured(parts: seq<string>, i: nat): string
  {
    if i < |parts| then parts[i] else Undefined
  }

  /** The date string with its first three `-`-separated segments written in the
      reverse order and separated by `/`. Missing segments print as "undefined"
      and segments after the third are dropped; no calendar check is made. */
  function FormatDateToBrazilian(date: string): (r: string)
    ensures var parts := Split(date, '-');
      |parts| >= 3 && '/' !in parts[0] && '/' !in parts[1] && '/' !in parts[2] ==>
        Split(r, '/') == [parts[2], parts[1], parts[0]]
    ensures |Split(date, '-')| < 3 ==> |r| >= 9 && r[..9] == Undefined
  {
    var parts := Split(date, '-');
    var year, month, day := Destructured(parts, 0), Destructured(parts, 1), Destructured(parts, 2);
    var r := day + "/" + month + "/" + year;
    JoinThree(day, month, year, '/');
    if '/' !in year && '/' !in month && '/' !in day then SplitJoin([day, month, year], '/'); r
    else r
  }

  predicate IsDigit(c: char)
  {
    '0' <= c <= '9'
  }

  predicate AllDigits(s: string)
  {
    forall i :: 0 <= i < |s| ==> IsDigit(s[i])
  }

  /** `YYYY-MM-DD`: four digits, a dash, two digits, a dash, two digits. */
  predicate IsIsoDate(s: string)
  {
    |s| == 10 && s[4] == '-' && s[7] == '-' &&
    AllDigits(s[..4]) && AllDigits(s[5..7]) && AllDigits(s[8..])
  }

  /** `DD/MM/YYYY`: two digits, a slash, two digits, a slash, four digits. */
  predicate IsBrazilianDate(s: string)
  {
    |s| == 10 && s[2] == '/' && s[5] == '/' &&
    AllDigits(s[..2]) && AllDigits(s[3..5]) && AllDigits(s[6..])
  }

  /** A date with exactly the three segments year, month and day comes out as
      day/month/year. */
  lemma FormatThreeSegments(date: string, year: string, month: string, day: string)
    requires Split(date, '-') == [year, month, day]
    ensures FormatDateToBrazilian(date) == day + "/" + month + "/" + year
    ensures FormatDateToBrazilian(date) == Join([day, month, year], '/')
  {
    JoinThree(day, month, year, '/');
  }

  /** Splitting the output on `/` gives the input's segments in reverse order. */
  lemma FormatReversesSegments(date: string, year: string, month: string, day: string)
    requires Split(date, '-') == [year, month, day]
    requires '/' !in year && '/' !in month && '/' !in day
    ensures Split(FormatDateToBrazilian(date), '/') == [day, month, year]
  {
    FormatThreeSegments(date, year, month, day);
    SplitJoin([day, month, year], '/');
  }

  /** Only the first three segments matter: two dates that agree on them
      format alike, however many further segments they carry. */
  lemma FormatIgnoresExtraSegments(a: string, b: string)
    requires |Split(a, '-')| >= 3 && |Split(b, '-')| >= 3
    requires Split(a, '-')[..3] == Split(b, '-')[..3]
    ensures FormatDateToBrazilian(a) == FormatDateToBrazilian(b)
  {
    var pa, pb := Split(a, '-'), Split(b, '-');
    assert pa[0] == pa[..3][0] && pa[1] == pa[..3][1] && pa[2] == pa[..3][2];
    assert pb[0] == pb[..3][0] && pb[1] == pb[..3][1] && pb[2] == pb[..3][2];
  }

  /** A date with only two segments is not rejected: the missing day prints as
      "undefined". */
  lemma FormatTwoSegments(date: string, year: string, month: string)
    requires Split(date, '-') == [year, month]
    ensures FormatDateToBrazilian(date) == Undefined + "/" + month + "/" + year
  {
  }

  /** The empty date, which the date input yields when cleared, splits into one
      empty segment: the day and the month print as "undefined" and the year is empty. */
  lemma FormatEmptyDate()
    ensures FormatDateToBrazilian("") == "undefined/undefined/"
  {
    assert Split("", '-') == [""];
  }

  lemma AllDigitsHasNo(s: string, c: char)
    requires AllDigits(s) && !IsDigit(c)
    ensures c !in s
  {
  }

  /** An ISO date is reformatted to a Brazilian date made of the same digits:
      the day, the month and the year of the input in that order. */
  lemma {:induction false} IsoDateToBrazilian(date: string)
    requires IsIsoDate(date)
    ensures FormatDateToBrazilian(date) == date[8..] + "/" + date[5..7] + "/" + date[..4]
    ensures IsBrazilianDate(FormatDateToBrazilian(date))
  {
    var year, month, day := date[..4], date[5..7], date[8..];
    AllDigitsHasNo(year, '-');
    AllDigitsHasNo(month, '-');
    AllDigitsHasNo(day, '-');
    assert date == year + ['-'] + month + ['-'] + day;
    JoinThree(year, month, day, '-');
    SplitJoin([year, month, day], '-');
    FormatThreeSegments(date, year, month, day);
    var r := day + "/" + month + "/" + year;
    assert r[..2] == day && r[3..5] == month && r[6..] == year;
  }

  /** A sample ISO date. */
  lemma FormatExample()
    ensures FormatDateToBrazilian("2023-11-07") == "07/11/2023"
  {
  }
}
