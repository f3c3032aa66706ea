/** The season rule that preprocessing.py, fetching.py and app.py each define
    (identically): a season starts on 1 July and is named by the year it starts
    in. "Today" is a parameter instead of a clock read. */
module Season {

  /** A calendar day. */
  datatype Date = Date(year: int, month: int, day: int)

  predicate ValidMonth(d: Date)
  {
    1 <= d.month <= 12
  }

  /** Months counted from year 0, so that calendar order is integer order. */
  function MonthIndex(d: Date): int
  {
    d.year * 12 + (d.month - 1)
  }

  /** Season `s` runs from July of year `s` through June of year `s + 1`. */
  ghost predicate InSeason(d: Date, s: int)
  {
    s * 12 + 6 <= MonthIndex(d) < s * 12 + 18
  }

  /** `_get_current_season()`: the year when the month is after June, else the
      year before. */
  function CurrentSeason(today: Date): (s: int)
    requires ValidMonth(today)
    ensures InSeason(today, s)
    ensures s == today.year || s == today.year - 1
  {
    if today.month > 6 then today.year else today.year - 1
  }

  /** Every date belongs to one season only, so the rule is the only one
      consistent with the July rollover. */
  lemma SeasonIsUnique(today: Date, s: int)
    requires ValidMonth(today)
    requires InSeason(today, s)
    ensures s == CurrentSeason(today)
  {
    var c := CurrentSeason(today);
    assert (s - c) * 12 < 12 && (c - s) * 12 < 12;
  }

  /** 30 June still belongs to the previous season; 1 July starts a new one. */
  lemma Rollover(year: int)
    ensures CurrentSeason(Date(year, 6, 30)) == year - 1
    ensures CurrentSeason(Date(year, 7, 1)) == year
  {
  }
}
