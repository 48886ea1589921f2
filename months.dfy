/** The month shown by the calendar tab and the two navigation buttons that move it. */
module Months {

  /** A calendar month: `current_year` and `current_month` (1 for January). */
  datatype YearMonth = YearMonth(year: int, month: int)

  /** The month number is one of 1..12. */
  predicate Valid(ym: YearMonth) {
    1 <= ym.month <= 12
  }

  /** Months counted from a fixed origin: `12 * year + month`. */
  function Serial(ym: YearMonth): int {
    12 * ym.year + ym.month
  }

  /** The month whose serial number is `n`. */
  function FromSerial(n: int): YearMonth {
    YearMonth((n - 1) / 12, (n - 1) % 12 + 1)
  }

  /** On valid months, the serial number and `FromSerial` are mutually inverse. */
  lemma SerialBijection(ym: YearMonth, n: int)
    requires Valid(ym)
    ensures FromSerial(Serial(ym)) == ym
    ensures Valid(FromSerial(n)) && Serial(FromSerial(n)) == n
  {
    var k := 12 * ym.year + ym.month - 1;
    assert k == 12 * ym.year + (ym.month - 1);
    assert k / 12 == ym.year && k % 12 == ym.month - 1;
  }

  /** The `>` button: December wraps around to January of the next year. On a valid
      month the result is valid and one month later. */
  function Next(ym: YearMonth): (r: YearMonth)
    ensures Valid(ym) ==> Valid(r) && Serial(r) == Serial(ym) + 1
  {
    if ym.month == 12 then YearMonth(ym.year + 1, 1) else YearMonth(ym.year, ym.month + 1)
  }

  /** The `<` button: January wraps around to December of the previous year. On a valid
      month the result is valid and one month earlier. */
  function Prev(ym: YearMonth): (r: YearMonth)
    ensures Valid(ym) ==> Valid(r) && Serial(r) == Serial(ym) - 1
  {
    if ym.month == 1 then YearMonth(ym.year - 1, 12) else YearMonth(ym.year, ym.month - 1)
  }

  /** `Next` and `Prev` are the successor and predecessor in month order. */
  lemma NextPrevBySerial(ym: YearMonth)
    requires Valid(ym)
    ensures Next(ym) == FromSerial(Serial(ym) + 1)
    ensures Prev(ym) == FromSerial(Serial(ym) - 1)
  {
    SerialBijection(Next(ym), 0);
    SerialBijection(Prev(ym), 0);
  }

  /** On valid months the two buttons undo each other. */
  lemma NextPrevInverse(ym: YearMonth)
    requires Valid(ym)
    ensures Prev(Next(ym)) == ym
    ensures Next(Prev(ym)) == ym
  {
  }

  /** `n` presses of `>`. */
  function Forward(ym: YearMonth, n: nat): YearMonth
    decreases n
  {
    if n == 0 then ym else Next(Forward(ym, n - 1))
  }

  /** `n` presses of `>` move a valid month exactly `n` months later. */
  lemma {:induction false} ForwardBySerial(ym: YearMonth, n: nat)
    requires Valid(ym)
    ensures Valid(Forward(ym, n)) && Serial(Forward(ym, n)) == Serial(ym) + n
    ensures Forward(ym, n) == FromSerial(Serial(ym) + n)
    decreases n
  {
    if n > 0 {
      ForwardBySerial(ym, n - 1);
    }
    SerialBijection(Forward(ym, n), 0);
  }
}
