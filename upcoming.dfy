/**
 * The birthday-window query as a function of the book's contacts in iteration
 * order: each stored birthday is moved into the current year; a contact is
 * listed when that date lies between today and `days` days ahead, inclusive;
 * a Saturday or Sunday is then moved to the following Monday.
 */
module Upcoming {
  import opened Outcomes
  import opened Dates
  import opened Fields

  /** What the query reads from one record: its name and its birthday. */
  datatype Entry = Entry(name: string, birthday: Option<Birthday>)

  /** One element of the result: `{"name": ..., "congratulation_date": ...}`. */
  datatype Greeting = Greeting(name: string, congratulationDate: string)

  /** `d.replace(year=y)`, which fails when the day does not exist in year `y`. */
  function ReplaceYear(d: Date, y: int): (r: Option<Date>)
    requires Valid(d)
    ensures r.Some? ==> Valid(r.value) && r.value == Date(y, d.month, d.day)
    ensures r.None? <==> !(MinYear <= y <= MaxYear) || (d.month == 2 && d.day == 29 && !IsLeap(y))
  {
    var moved := Date(y, d.month, d.day);
    if Valid(moved) then Some(moved) else None
  }

  /** A Saturday or Sunday moves to the following Monday, by `7 - weekday` days; a weekday stays. */
  function ShiftWeekend(d: Date): (r: Date)
    requires Valid(d)
    ensures Valid(r) && Weekday(r) < 5
    ensures Weekday(d) < 5 ==> r == d
    ensures Weekday(d) >= 5 ==> Weekday(r) == 0 && Ordinal(r) == Ordinal(d) + 7 - Weekday(d)
  {
    var w := Weekday(d);
    if w >= 5 then
      WeekendHasRoom(d);
      var r := AddDays(d, 7 - w);
      WeekdayAfter(d, r);
      assert Weekday(r) == (w + 7 - w) % 7;
      r
    else
      d
  }

  lemma WeekdayAfter(d: Date, r: Date)
    requires Valid(d) && Valid(r) && Ordinal(r) >= Ordinal(d)
    ensures Weekday(r) == (Weekday(d) + Ordinal(r) - Ordinal(d)) % 7
  {
    ModSeven(Ordinal(d) + 6, Ordinal(r) - Ordinal(d));
  }

  lemma ModSeven(o: int, n: int)
    requires n >= 0
    ensures (o + n) % 7 == (o % 7 + n) % 7
  {
    var q := o / 7;
    assert o == 7 * q + o % 7;
    assert o + n == 7 * q + (o % 7 + n);
  }

  /** The Monday after a weekend day is still a date Python can represent: 31 December 9999 is a Friday. */
  lemma WeekendHasRoom(d: Date)
    requires Valid(d) && Weekday(d) >= 5
    ensures Ordinal(d) + 7 - Weekday(d) <= MaxOrdinal
  {
    OrdinalBounds(d);
    RoomBeforeEnd(Ordinal(d));
  }

  lemma RoomBeforeEnd(o: int)
    requires o <= MaxOrdinal && (o + 6) % 7 >= 5
    ensures o + 7 - (o + 6) % 7 <= MaxOrdinal
  {
    var q, w := (o + 6) / 7, (o + 6) % 7;
    assert o + 6 == 7 * q + w;
  }

  /** The stored birthday of `e` moved into `year`, when `e` has one and the move succeeds. */
  function Anchored(e: Entry, year: int): (r: Option<Date>)
    ensures r.Some? ==> e.birthday.Some? && Parse(e.birthday.value.value).Some?
    ensures r.Some? ==> (Valid(r.value) && r.value.year == year &&
      r.value.month == Parse(e.birthday.value.value).value.month && r.value.day == Parse(e.birthday.value.value).value.day)
  {
    if e.birthday.None? then None
    else match Parse(e.birthday.value.value)
      case None => None
      case Some(b) => ReplaceYear(b, year)
  }

  /** The entry has a birthday, and it falls between `today` and `days` days later, inclusive. */
  predicate InWindow(e: Entry, today: Date, days: int)
    requires Valid(today)
  {
    var t := Anchored(e, today.year);
    t.Some? && 0 <= Ordinal(t.value) - Ordinal(today) <= days
  }

  /** One pass of the loop over records: skip, emit one greeting, or raise. */
  function Congratulation(e: Entry, today: Date, days: int): Result<Option<Greeting>, Error>
    requires Valid(today)
  {
    match e.birthday
    case None => Ok(None)
    case Some(b) =>
      match Parse(b.value)
      case None => Err(InvalidDate)
      case Some(born) =>
        match ReplaceYear(born, today.year)
        case None => Err(InvalidDate)
        case Some(t) =>
          if 0 <= Ordinal(t) - Ordinal(today) <= days then
            Ok(Some(Greeting(e.name, Format(ShiftWeekend(t)))))
          else
            Ok(None)
  }

  /** The loop body of `get_upcoming_birthdays` for a fixed `today` and window. */
  function Step(today: Date, days: int): Entry -> Result<Option<Greeting>, Error>
    requires Valid(today)
  {
    e => Congratulation(e, today, days)
  }

  lemma StepIs(e: Entry, today: Date, days: int)
    requires Valid(today)
    ensures Step(today, days)(e) == Congratulation(e, today, days)
  {
  }

  /** `get_upcoming_birthdays(days)` over the entries in book order; the first raise aborts the whole call. */
  function UpcomingBirthdays(es: seq<Entry>, today: Date, days: int): Result<seq<Greeting>, Error>
    requires Valid(today)
  {
    Seqs.Collect(es, Step(today, days))
  }

  // ---------------------------------------------------------------------------
  // One entry

  /**
   * An entry is listed exactly when it has a birthday and the birthday, moved
   * into today's year, lies in the window. The date listed is a weekday: the
   * moved birthday itself, or the Monday after it when it falls on a weekend,
   * so that it can lie up to two days past the window.
   */
  lemma CongratulationListed(e: Entry, today: Date, days: int)
    requires Valid(today)
    requires Congratulation(e, today, days).Ok?
    ensures Congratulation(e, today, days).value.Some? <==> InWindow(e, today, days)
    ensures Congratulation(e, today, days).value.Some? ==>
      var g := Congratulation(e, today, days).value.value;
      var t := Anchored(e, today.year).value;
      g.name == e.name && Parse(g.congratulationDate).Some? &&
      var c := Parse(g.congratulationDate).value;
      g.congratulationDate == Format(c) && Weekday(c) < 5 &&
      (Weekday(t) < 5 ==> c == t) &&
      (Weekday(t) >= 5 ==> Weekday(c) == 0 && Ordinal(c) == Ordinal(t) + 7 - Weekday(t)) &&
      Ordinal(today) <= Ordinal(c) <= Ordinal(today) + days + 2
  {
    if InWindow(e, today, days) {
      var t := Anchored(e, today.year).value;
      var c := ShiftWeekend(t);
      assert Congratulation(e, today, days) == Ok(Some(Greeting(e.name, Format(c))));
      ParseFormat(c);
      assert Ordinal(t) <= Ordinal(c) <= Ordinal(t) + 2;
    }
  }

  /**
   * The query raises on an entry exactly when its birthday text does not parse
   * or the date cannot be moved into today's year. A birthday kept by
   * `NewBirthday` always parses, so for the book's records that leaves
   * 29 February in a year that is not a leap year (`CanonicalRaises`).
   */
  lemma CongratulationRaises(e: Entry, today: Date, days: int)
    requires Valid(today)
    ensures Congratulation(e, today, days).Err? <==>
      e.birthday.Some? &&
      (Parse(e.birthday.value.value).None? ||
       var b := Parse(e.birthday.value.value).value;
       b.month == 2 && b.day == 29 && !IsLeap(today.year))
  {
    if e.birthday.Some? {
      match Parse(e.birthday.value.value)
      case None =>
      case Some(b) =>
        assert Congratulation(e, today, days).Err? <==> ReplaceYear(b, today.year).None?;
    }
  }

  /**
   * For a birthday kept in canonical form, as every record keeps it, the query
   * raises on the entry exactly when the birthday is 29 February and today's
   * year is not a leap year.
   */
  lemma CanonicalRaises(e: Entry, today: Date, days: int)
    requires Valid(today)
    requires e.birthday.Some? ==> IsCanonicalBirthday(e.birthday.value.value)
    ensures Congratulation(e, today, days).Err? <==>
      e.birthday.Some? && Parse(e.birthday.value.value).Some? &&
      var b := Parse(e.birthday.value.value).value;
      b.month == 2 && b.day == 29 && !IsLeap(today.year)
  {
    CongratulationRaises(e, today, days);
    if e.birthday.Some? {
      CanonicalBirthdayParses(e.birthday.value.value);
    }
  }

  /**
   * The window does not wrap into the next year: a birthday that has already
   * passed in today's year is not listed, however close it is in the next.
   */
  lemma PassedNotListed(e: Entry, today: Date, days: int)
    requires Valid(today) && Anchored(e, today.year).Some?
    requires var t := Anchored(e, today.year).value;
      t.month < today.month || (t.month == today.month && t.day < today.day)
    ensures Congratulation(e, today, days) == Ok(None)
  {
    var t := Anchored(e, today.year).value;
    if t.month < today.month {
      MonthBeforeOrdinal(t, today);
    }
    assert Ordinal(t) < Ordinal(today);
    assert ReplaceYear(Parse(e.birthday.value.value).value, today.year) == Some(t);
  }

  // ---------------------------------------------------------------------------
  // The whole query

  /** The query raises exactly when one of the entries does. */
  lemma UpcomingRaises(es: seq<Entry>, today: Date, days: int)
    requires Valid(today)
    ensures UpcomingBirthdays(es, today, days).Err? <==>
      exists i :: 0 <= i < |es| && Congratulation(es[i], today, days).Err?
  {
    Seqs.CollectFails(es, Step(today, days));
    forall i | 0 <= i < |es|
      ensures Seqs.FailsAt(es, Step(today, days), i) <==> Congratulation(es[i], today, days).Err?
    {
      StepIs(es[i], today, days);
    }
  }

  /** Every greeting listed comes from an entry, and every greeting of an entry is listed. */
  lemma UpcomingExact(es: seq<Entry>, today: Date, days: int)
    requires Valid(today)
    requires UpcomingBirthdays(es, today, days).Ok?
    ensures forall g :: g in UpcomingBirthdays(es, today, days).value <==>
      exists i :: 0 <= i < |es| && Congratulation(es[i], today, days) == Ok(Some(g))
  {
    Seqs.CollectExact(es, Step(today, days));
    var r := UpcomingBirthdays(es, today, days).value;
    forall g
      ensures g in r <==> exists i :: 0 <= i < |es| && Congratulation(es[i], today, days) == Ok(Some(g))
    {
      if g in r {
        var i :| Seqs.Produces(es, Step(today, days), i, g);
        StepIs(es[i], today, days);
      }
      if exists i :: 0 <= i < |es| && Congratulation(es[i], today, days) == Ok(Some(g)) {
        var i :| 0 <= i < |es| && Congratulation(es[i], today, days) == Ok(Some(g));
        StepIs(es[i], today, days);
        assert Seqs.Produces(es, Step(today, days), i, g);
      }
    }
  }

  /** Greetings come in the order of their entries: an earlier greeting comes from an earlier entry. */
  lemma UpcomingOrdered(es: seq<Entry>, today: Date, days: int)
    requires Valid(today)
    requires UpcomingBirthdays(es, today, days).Ok?
    ensures Seqs.InOrder(es, Step(today, days), UpcomingBirthdays(es, today, days).value)
  {
    Seqs.CollectOrdered(es, Step(today, days));
  }

  /**
   * Every date the query lists is written in canonical form, is a weekday, and
   * lies no earlier than today and at most two days past the window.
   */
  lemma UpcomingOnWeekdays(es: seq<Entry>, today: Date, days: int)
    requires Valid(today)
    requires UpcomingBirthdays(es, today, days).Ok?
    ensures var r := UpcomingBirthdays(es, today, days).value;
      forall g :: g in r ==>
        (Parse(g.congratulationDate).Some? &&
         g.congratulationDate == Format(Parse(g.congratulationDate).value) &&
         Weekday(Parse(g.congratulationDate).value) < 5 &&
         Ordinal(today) <= Ordinal(Parse(g.congratulationDate).value) <= Ordinal(today) + days + 2)
  {
    UpcomingExact(es, today, days);
    var r := UpcomingBirthdays(es, today, days).value;
    forall g | g in r
      ensures Parse(g.congratulationDate).Some? &&
        g.congratulationDate == Format(Parse(g.congratulationDate).value) &&
        Weekday(Parse(g.congratulationDate).value) < 5 &&
        Ordinal(today) <= Ordinal(Parse(g.congratulationDate).value) <= Ordinal(today) + days + 2
    {
      var i :| 0 <= i < |es| && Congratulation(es[i], today, days) == Ok(Some(g));
      CongratulationListed(es[i], today, days);
    }
  }
}
