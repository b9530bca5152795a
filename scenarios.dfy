/** Concrete instances of the birthday query and the birthday parser. */
module Scenarios {
  import opened Outcomes
  import opened Dates
  import opened Fields
  import opened Upcoming
  import Seqs

  /** The query over a single entry is that entry's pass of the loop. */
  lemma Single(e: Entry, today: Date, days: int)
    requires Valid(today)
    ensures UpcomingBirthdays([e], today, days) ==
      match Congratulation(e, today, days)
      case Err(x) => Err(x)
      case Ok(u) => Ok(if u.Some? then [u.value] else [])
  {
    Seqs.CollectSingle(e, Step(today, days));
    StepIs(e, today, days);
  }

  // ---------------------------------------------------------------------------
  // Calendar facts the scenarios use

  /** Day numbers and weekdays in June 2025; 10 June is a Tuesday. */
  lemma June2025()
    ensures Ordinal(Date(2025, 6, 10)) == 739412 && Weekday(Date(2025, 6, 10)) == 1
    ensures Ordinal(Date(2025, 6, 12)) == 739414 && Weekday(Date(2025, 6, 12)) == 3
    ensures Ordinal(Date(2025, 6, 14)) == 739416 && Weekday(Date(2025, 6, 14)) == 5
    ensures Ordinal(Date(2025, 6, 16)) == 739418
    ensures Ordinal(Date(2025, 6, 20)) == 739422
  {
  }

  /** The canonical texts of the stored birthdays the scenarios use. */
  lemma BirthTexts()
    ensures Format(Date(1990, 6, 12)) == "12.06.1990" && Format(Date(1990, 6, 14)) == "14.06.1990"
    ensures Format(Date(1990, 6, 20)) == "20.06.1990" && Format(Date(2024, 2, 29)) == "29.02.2024"
  {
  }

  /** The canonical texts of the greeting dates the scenarios use. */
  lemma GreetingTexts()
    ensures Format(Date(2025, 6, 12)) == "12.06.2025" && Format(Date(2025, 6, 16)) == "16.06.2025"
  {
  }

  /** Saturday 14 June 2025 moves to Monday 16 June. */
  lemma MondayAfter()
    ensures ShiftWeekend(Date(2025, 6, 14)) == Date(2025, 6, 16)
  {
    June2025();
    OrdinalInjective(ShiftWeekend(Date(2025, 6, 14)), Date(2025, 6, 16));
  }

  /** The fields of "31.02.2024" each match on their own. */
  lemma FebruaryFields()
    ensures "31.02.2024" == "31" + "." + "02" + "." + "2024"
    ensures DayField("31") == Some(31) && MonthField("02") == Some(2) && YearField("2024") == Some(2024)
  {
    assert DigitValue('3') == 3 && DigitValue('1') == 1;
    assert DigitValue('0') == 0 && DigitValue('2') == 2;
  }

  // ---------------------------------------------------------------------------
  // Scenarios

  /** A birthday on Thursday 12 June 2025, two days after Tuesday 10 June, is listed on its own date. */
  lemma ThursdayListed()
    ensures UpcomingBirthdays([Entry("Ann", Some(Birthday("12.06.1990")))], Date(2025, 6, 10), 7) ==
      Ok([Greeting("Ann", "12.06.2025")])
  {
    var e := Entry("Ann", Some(Birthday("12.06.1990")));
    BirthTexts();
    ParseFormat(Date(1990, 6, 12));
    ThursdayStep(e);
    Single(e, Date(2025, 6, 10), 7);
  }

  lemma ThursdayStep(e: Entry)
    requires e == Entry("Ann", Some(Birthday("12.06.1990"))) && Parse("12.06.1990") == Some(Date(1990, 6, 12))
    ensures Congratulation(e, Date(2025, 6, 10), 7) == Ok(Some(Greeting("Ann", "12.06.2025")))
  {
    June2025();
    GreetingTexts();
    assert ReplaceYear(Date(1990, 6, 12), 2025) == Some(Date(2025, 6, 12));
    assert ShiftWeekend(Date(2025, 6, 12)) == Date(2025, 6, 12);
  }

  /** A birthday on Saturday 14 June 2025 is greeted on Monday 16 June. */
  lemma SaturdayMovedToMonday()
    ensures UpcomingBirthdays([Entry("Ann", Some(Birthday("14.06.1990")))], Date(2025, 6, 10), 7) ==
      Ok([Greeting("Ann", "16.06.2025")])
  {
    var e := Entry("Ann", Some(Birthday("14.06.1990")));
    BirthTexts();
    ParseFormat(Date(1990, 6, 14));
    SaturdayStep(e);
    Single(e, Date(2025, 6, 10), 7);
  }

  lemma SaturdayStep(e: Entry)
    requires e == Entry("Ann", Some(Birthday("14.06.1990"))) && Parse("14.06.1990") == Some(Date(1990, 6, 14))
    ensures Congratulation(e, Date(2025, 6, 10), 7) == Ok(Some(Greeting("Ann", "16.06.2025")))
  {
    June2025();
    MondayAfter();
    GreetingTexts();
    assert ReplaceYear(Date(1990, 6, 14), 2025) == Some(Date(2025, 6, 14));
  }

  /** A birthday ten days ahead is outside a seven-day window. */
  lemma TenDaysAheadExcluded()
    ensures UpcomingBirthdays([Entry("Ann", Some(Birthday("20.06.1990")))], Date(2025, 6, 10), 7) == Ok([])
  {
    var e := Entry("Ann", Some(Birthday("20.06.1990")));
    assert Format(Date(1990, 6, 20)) == "20.06.1990" by { BirthTexts(); }
    ParseFormat(Date(1990, 6, 20));
    assert Congratulation(e, Date(2025, 6, 10), 7) == Ok(None) by { June2025(); }
    Single(e, Date(2025, 6, 10), 7);
  }

  /** A 29 February birthday makes the whole query raise in a year that is not a leap year. */
  lemma LeapDayRaises()
    ensures UpcomingBirthdays([Entry("Ann", Some(Birthday("29.02.2024")))], Date(2025, 2, 20), 7) == Err(InvalidDate)
  {
    assert Format(Date(2024, 2, 29)) == "29.02.2024" by { BirthTexts(); }
    ParseFormat(Date(2024, 2, 29));
    Single(Entry("Ann", Some(Birthday("29.02.2024"))), Date(2025, 2, 20), 7);
  }

  /** An impossible date is refused. */
  lemma ImpossibleDateRefused()
    ensures NewBirthday("31.02.2024") == Err(WrongBirthday)
  {
    FebruaryFields();
    SplitAtDots("31", "02", "2024");
  }

  /** One-digit day and month are accepted and padded. */
  lemma OneDigitFieldsPadded()
    ensures NewBirthday("1.1.2020") == Ok(Birthday("01.01.2020"))
  {
    assert Format(Date(2020, 1, 1)) == "01.01.2020" && Pad4(2020) == "2020";
    assert DaySpelling("1", 1) && MonthSpelling("1", 1);
    assert "1.1.2020" == "1" + "." + "1" + "." + Pad4(2020);
    NewBirthdayPads(Date(2020, 1, 1), "1", "1");
  }
}
