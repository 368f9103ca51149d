/** Calendar dates and the whole-year part of PHP's `date_diff`, which the
    registration handler uses to compute an applicant's age. */
module Calendar {

  /** A calendar date as `date_create` yields it at midnight: year, month, day. */
  datatype Date = Date(year: int, month: int, day: int)

  /** Chronological order of dates: by year, then month, then day. */
  predicate OnOrBefore(a: Date, b: Date) {
    a.year < b.year || (a.year == b.year && (a.month < b.month || (a.month == b.month && a.day <= b.day)))
  }

  /** The same month and day, `n` years later (earlier when `n` is negative). */
  function Anniversary(d: Date, n: int): Date {
    Date(d.year + n, d.month, d.day)
  }

  /** The `y` field of the interval from `from` to `to` when `from` comes
      first: the year difference, less one when `to`'s month and day have not
      yet reached `from`'s. */
  function CompletedYears(from: Date, to: Date): int
    requires OnOrBefore(from, to)
  {
    var behind := to.month < from.month || (to.month == from.month && to.day < from.day);
    to.year - from.year - (if behind then 1 else 0)
  }

  /** `date_diff(born, today)->y`. The interval's `y` is a magnitude: when
      `born` lies after `today` the interval is inverted, not negated, so the
      result is the number of whole years between the two dates either way. */
  function Age(born: Date, today: Date): (years: nat)
    ensures OnOrBefore(born, today) ==> OnOrBefore(Anniversary(born, years), today)
    ensures OnOrBefore(born, today) ==> !OnOrBefore(Anniversary(born, years + 1), today)
    ensures !OnOrBefore(born, today) ==> OnOrBefore(Anniversary(today, years), born)
    ensures !OnOrBefore(born, today) ==> !OnOrBefore(Anniversary(today, years + 1), born)
  {
    if OnOrBefore(born, today) then CompletedYears(born, today) else CompletedYears(today, born)
  }

  /** The later of `a` and `b` falls on or after the `n`-th anniversary of the earlier. */
  predicate YearsApart(a: Date, b: Date, n: int) {
    if OnOrBefore(a, b) then OnOrBefore(Anniversary(a, n), b) else OnOrBefore(Anniversary(b, n), a)
  }

  /** Anniversaries of one date are reached in order: reaching the `m`-th
      means every earlier one was reached too. */
  lemma AnniversariesInOrder(d: Date, m: int, n: int, to: Date)
    requires n <= m && OnOrBefore(Anniversary(d, m), to)
    ensures OnOrBefore(Anniversary(d, n), to)
  {
  }

  /** The age is at least `n` exactly when `n` whole years separate the two dates. */
  lemma AgeAtLeast(born: Date, today: Date, n: nat)
    ensures Age(born, today) >= n <==> YearsApart(born, today, n)
  {
    var years := Age(born, today);
    if years < n {
      if OnOrBefore(born, today) {
        if OnOrBefore(Anniversary(born, n), today) {
          AnniversariesInOrder(born, n, years + 1, today);
        }
      } else {
        if OnOrBefore(Anniversary(today, n), born) {
          AnniversariesInOrder(today, n, years + 1, born);
        }
      }
    } else {
      if OnOrBefore(born, today) {
        AnniversariesInOrder(born, years, n, today);
      } else {
        AnniversariesInOrder(today, years, n, born);
      }
    }
  }

  /** Swapping the two dates does not change the whole-year difference. */
  lemma AgeSymmetric(a: Date, b: Date)
    ensures Age(a, b) == Age(b, a)
  {
  }
}
