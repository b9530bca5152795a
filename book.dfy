/**
 * The address book: a dictionary from a contact's name to its record. Python
 * dictionaries iterate in insertion order, so the book keeps the order of its
 * keys beside the map: overwriting a key keeps its place, deleting one drops it.
 */
module Book {
  import opened Outcomes
  import opened Dates
  import opened Fields
  import opened Records
  import opened Upcoming
  import Seqs

  /** What the birthday query reads from the records of `m` under the keys `ks`, in that order. */
  function EntriesOf(ks: seq<string>, m: map<string, Record>): (es: seq<Entry>)
    requires forall k :: k in ks ==> k in m
    reads m.Values
    ensures |es| == |ks|
    ensures forall i :: 0 <= i < |ks| ==> es[i] == Entry(m[ks[i]].name, m[ks[i]].birthday)
  {
    if ks == [] then []
    else [Entry(m[ks[0]].name, m[ks[0]].birthday)] + EntriesOf(ks[1..], m)
  }

  class AddressBook {
    /** The keys of `data` in iteration order. */
    var order: seq<string>
    var data: map<string, Record>

    /** Keys are unique, are exactly the keys of `data`, and each is the name of its record. */
    ghost predicate Valid()
      reads this
    {
      Distinct(order) &&
      (forall k :: k in data <==> k in order) &&
      (forall k :: k in data ==> data[k].name == k)
    }

    /** Every record was built and changed only through its validating operations. */
    ghost predicate RecordsValid()
      reads this, data.Values
    {
      forall k :: k in data ==> data[k].Valid()
    }

    /** The records' birthdays, what `get_upcoming_birthdays` reads, in iteration order. */
    function Entries(): (es: seq<Entry>)
      reads this, data.Values
      requires Valid()
    {
      EntriesOf(order, data)
    }

    /** An empty book. */
    constructor ()
      ensures Valid() && order == [] && data == map[]
    {
      order := [];
      data := map[];
    }

    /** `add_record`: the record goes under its own name; an existing entry there is replaced in place. */
    method AddRecord(record: Record)
      requires Valid()
      modifies this
      ensures Valid()
      ensures data == old(data)[record.name := record]
      ensures order == if record.name in old(data) then old(order) else old(order) + [record.name]
    {
      if record.name !in data {
        order := order + [record.name];
      }
      data := data[record.name := record];
    }

    /** `find`: the record stored under `name`, or `None`. */
    function Find(name: string): (r: Option<Record>)
      reads this
      requires Valid()
      ensures r.Some? <==> name in data
      ensures r.Some? ==> r.value == data[name] && r.value.name == name
    {
      if name in data then Some(data[name]) else None
    }

    /** `delete`: removes the entry for `name`; for a missing name it changes nothing and returns a message. */
    method Delete(name: string) returns (message: Option<string>)
      requires Valid()
      modifies this
      ensures Valid()
      ensures name in old(data) ==>
        (message == None && data == old(data) - {name} &&
         exists i :: 0 <= i < |old(order)| && old(order)[i] == name && order == old(order)[..i] + old(order)[i + 1..])
      ensures name !in old(data) ==>
        (message == Some("Such record of " + name + " was not found") && data == old(data) && order == old(order))
    {
      if name !in data {
        return Some("Such record of " + name + " was not found");
      }
      var i := Seqs.IndexOf(order, name).value;
      DropKey(order, i);
      order := order[..i] + order[i + 1..];
      data := data - {name};
      message := None;
    }

    /**
     * `get_upcoming_birthdays(days)`, with `today` given rather than read from
     * the clock: the greetings for the records in iteration order, or the
     * `ValueError` raised by the first record whose birthday cannot be moved
     * into today's year.
     */
    method GetUpcomingBirthdays(today: Date, days: int) returns (r: Result<seq<Greeting>, Error>)
      requires Valid() && Dates.Valid(today)
      ensures r == UpcomingBirthdays(Entries(), today, days)
    {
      var es := Entries();
      var upcoming: seq<Greeting> := [];
      var i := 0;
      assert es[0..] == es;
      PrefixedNothing(UpcomingBirthdays(es, today, days));
      while i < |es|
        invariant 0 <= i <= |es|
        invariant UpcomingBirthdays(es, today, days) == Prefixed(upcoming, UpcomingBirthdays(es[i..], today, days))
      {
        UpcomingStep(es, i, today, days, upcoming);
        var greeting := CongratulationFor(es[i], today, days);
        match greeting {
          case Err(e) =>
            return Err(e);
          case Ok(None) =>
          case Ok(Some(g)) =>
            upcoming := upcoming + [g];
        }
        i := i + 1;
      }
      assert es[i..] == [];
      assert UpcomingBirthdays([], today, days) == Ok([]);
      assert upcoming + [] == upcoming;
      return Ok(upcoming);
    }

    /**
     * Birthdays are stored in canonical form, so they always parse again: the
     * query over the book raises exactly when some record's birthday is
     * 29 February and today's year is not a leap year.
     */
    lemma UpcomingRaisesOnLeapDay(today: Date, days: int)
      requires Valid() && RecordsValid() && Dates.Valid(today)
      ensures UpcomingBirthdays(Entries(), today, days).Err? <==>
        exists k :: k in data && LeapDayIn(data[k].birthday, today.year)
    {
      var es := Entries();
      UpcomingRaises(es, today, days);
      forall i | 0 <= i < |es|
        ensures Congratulation(es[i], today, days).Err? <==> LeapDayIn(data[order[i]].birthday, today.year)
      {
        assert order[i] in data;
        assert data[order[i]].Valid();
        CanonicalRaises(es[i], today, days);
      }
      if exists k :: k in data && LeapDayIn(data[k].birthday, today.year) {
        var k :| k in data && LeapDayIn(data[k].birthday, today.year);
        var i :| 0 <= i < |order| && order[i] == k;
        assert Congratulation(es[i], today, days).Err?;
      }
    }
  }

  /**
   * The loop body of `get_upcoming_birthdays`, written as the statements it is
   * and proved equal to `Congratulation`, the same computation as a function,
   * about which the listing lemmas are stated. It skips a contact without
   * a birthday, raises when the birthday cannot be read back or moved into
   * today's year, and otherwise greets it when it falls in the window, on the
   * Monday after when that date is a Saturday or Sunday.
   */
  method CongratulationFor(contact: Entry, today: Date, days: int) returns (r: Result<Option<Greeting>, Error>)
    requires Dates.Valid(today)
    ensures r == Congratulation(contact, today, days)
  {
    if contact.birthday.None? {
      return Ok(None);
    }
    var born := Parse(contact.birthday.value.value);
    if born.None? {
      return Err(InvalidDate);
    }
    var thisYear := ReplaceYear(born.value, today.year);
    if thisYear.None? {
      return Err(InvalidDate);
    }
    var birthday := thisYear.value;
    if 0 <= Ordinal(birthday) - Ordinal(today) <= days {
      if Weekday(birthday) >= 5 {
        WeekendHasRoom(birthday);
        birthday := AddDays(birthday, 7 - Weekday(birthday));
      }
      assert birthday == ShiftWeekend(thisYear.value);
      return Ok(Some(Greeting(contact.name, Format(birthday))));
    }
    return Ok(None);
  }

  /** The birthday, if any, is 29 February and `year` is not a leap year. */
  predicate LeapDayIn(birthday: Option<Birthday>, year: int) {
    birthday.Some? && Parse(birthday.value.value).Some? &&
    var b := Parse(birthday.value.value).value;
    b.month == 2 && b.day == 29 && !IsLeap(year)
  }

  /** Keys without repeats. */
  ghost predicate Distinct(ks: seq<string>) {
    forall i, j :: 0 <= i < j < |ks| ==> ks[i] != ks[j]
  }

  /** Dropping one key from keys without repeats drops just that key and leaves no repeats. */
  lemma DropKey(ks: seq<string>, i: nat)
    requires i < |ks| && Distinct(ks)
    ensures var r := ks[..i] + ks[i + 1..];
      Distinct(r) && forall k :: k in r <==> k in ks && k != ks[i]
  {
    var r := ks[..i] + ks[i + 1..];
    assert ks == ks[..i] + [ks[i]] + ks[i + 1..];
    forall a, b | 0 <= a < b < |r|
      ensures r[a] != r[b]
    {
      var a', b' := if a < i then a else a + 1, if b < i then b else b + 1;
      assert r[a] == ks[a'] && r[b] == ks[b'];
    }
    forall k | k in ks && k != ks[i]
      ensures k in r
    {
      var j :| 0 <= j < |ks| && ks[j] == k;
      assert j != i;
      assert r[if j < i then j else j - 1] == k;
    }
  }

  /** The result of the whole query, given the greetings already collected and the result for the rest. */
  function Prefixed(done: seq<Greeting>, rest: Result<seq<Greeting>, Error>): Result<seq<Greeting>, Error> {
    match rest
    case Ok(gs) => Ok(done + gs)
    case Err(e) => Err(e)
  }

  /** One pass of the loop: the entry at `i` either raises, or adds its greeting, if any, to those collected. */
  lemma UpcomingStep(es: seq<Entry>, i: nat, today: Date, days: int, done: seq<Greeting>)
    requires Dates.Valid(today) && i < |es|
    ensures Prefixed(done, UpcomingBirthdays(es[i..], today, days)) ==
      match Congratulation(es[i], today, days)
      case Err(e) => Err(e)
      case Ok(None) => Prefixed(done, UpcomingBirthdays(es[i + 1..], today, days))
      case Ok(Some(g)) => Prefixed(done + [g], UpcomingBirthdays(es[i + 1..], today, days))
  {
    var s := es[i..];
    assert s != [] && s[0] == es[i] && s[1..] == es[i + 1..];
    StepIs(es[i], today, days);
    var c := Congratulation(es[i], today, days);
    var rest := UpcomingBirthdays(es[i + 1..], today, days);
    assert UpcomingBirthdays(s, today, days) ==
      match c
      case Err(e) => Err(e)
      case Ok(u) =>
        match rest
        case Err(e) => Err(e)
        case Ok(gs) => Ok((if u.Some? then [u.value] else []) + gs);
    if c.Ok? && rest.Ok? {
      var gs := rest.value;
      if c.value.Some? {
        assert done + ([c.value.value] + gs) == done + [c.value.value] + gs;
      } else {
        assert [] + gs == gs;
      }
    }
  }

  lemma PrefixedNothing(rest: Result<seq<Greeting>, Error>)
    ensures Prefixed([], rest) == rest
  {
    if rest.Ok? {
      assert [] + rest.value == rest.value;
    }
  }
}
