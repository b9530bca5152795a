# Contact book: a verified model

This project models the core of a command-line contact book written in
Python (`main.py`). The book maps a contact's name to a record. A record has a
fixed name, an ordered list of phone numbers (ten digits each, duplicates
allowed) and at most one birthday. The birthday is stored as the canonical
`DD.MM.YYYY` text of a real date. The book answers one query:
which contacts have a birthday in the next `days` days, with a birthday that
falls on a weekend greeted on the following Monday.

The model is organised as follows:

- `outcomes.dfy`: `Option`, `Result` and `Outcome`. These stand in for Python's `None` and for the exceptions an operation raises.
- `seqs.dfy`: the first index of an element, and `Collect`, which runs a step function over a sequence and stops at the first failure. `Collect` comes with lemmas about what it produces and in what order.
- `dates.dfy`: the part of `datetime` the program relies on, defined from scratch:
  - proleptic Gregorian dates in Python's range (years 1 to 9999);
  - `toordinal`, `weekday` and adding days;
  - `strptime(s, "%d.%m.%Y")` as the field patterns of CPython's `_strptime` define it;
  - `strftime("%d.%m.%Y")`.
- `fields.dfy`: the exception kinds, and the validating constructors of `Phone` and `Birthday`.
- `records.dfy`: the class `Record`. Each of its phone operations is specified by a function of the old phone list.
- `upcoming.dfy`: `get_upcoming_birthdays` as a function of the book's contacts in iteration order, plus its properties.
- `book.dfy`: the class `AddressBook`. It keeps its keys in insertion order beside the map, and its `GetUpcomingBirthdays` loop is proved equal to the function.
- `handlers.dfy`: the handlers that change the book (`add_contact`, `change_contact`, `add_birthday`).
- `scenarios.dfy`: concrete instances of the query and of the birthday parser, proved as lemmas.

Two behaviours of the code are easy to miss, and the model keeps both:

- `strptime`'s `%d` and `%m` also accept a one-digit field, and `%d` also accepts a space before one digit. So `1.1.2020` is accepted and stored as `01.01.2020` (`Fields.NewBirthdayPads`, `Scenarios.OneDigitFieldsPadded`).
- `edit_phone` with a malformed new number raises `NotFoundNumber`. `WrongSizeNumberError` is a `ValueError`, and the `except ValueError` at `main.py:70` catches it (`Records.ReplaceFirst`).

These behaviours of the code are modelled exactly as written and are stated as properties:

- A stored birthday of 29 February makes the whole birthday query raise in a year that is not a leap year. Stored birthdays always parse again, so this is the only way the query raises (`Book.AddressBook.UpcomingRaisesOnLeapDay`, `Scenarios.LeapDayRaises`). That rests on `%Y` padding years below 1000 to four digits; see "## Left out".
- The window does not wrap into the next year (`Upcoming.PassedNotListed`).
- `add_contact` stores a new record before it validates the phone. A bad number therefore leaves an empty record in the book (`Handlers.AddContact`).

## Model

| member | source | states |
|---|---|---|
| Dates.DaysInMonth | main.py:42 | a month has 28 to 31 days, and 29 exactly in February of a leap year, which is what decides whether `strptime` and `replace` accept a day |
| Dates.Valid | main.py:42 | the dates `date(year, month, day)` accepts: years 1 to 9999, months 1 to 12, days within the month; no ensures of its own, its use is stated by the lemmas below |
| Dates.Ordinal | main.py:111 | `toordinal()`, so that `(a - b).days` is `Ordinal(a) - Ordinal(b)`; no ensures of its own, its meaning is carried by `Dates.OrdinalBounds`, `Dates.OrdinalInjective` and `Dates.NextDay` |
| Dates.Weekday | main.py:112 | `weekday()` of a valid date is between 0 (Monday) and 6 (Sunday) |
| Dates.OrdinalBounds | main.py:111 | every representable date has a day number from 1 to that of 31 December 9999 |
| Dates.OrdinalInjective | main.py:111 | two valid dates with the same day number are the same date, so the day difference `(a - b).days` determines the date |
| Dates.NextDay | main.py:113 | the next calendar day is a valid date one day number later |
| Dates.AddDays | main.py:113 | `d + timedelta(days=n)` is a valid date exactly `n` day numbers later whenever it stays in range |
| Dates.Format | main.py:160-161 | `strftime("%d.%m.%Y")` gives ten characters with dots at positions 2 and 5 |
| Dates.SplitFields | main.py:42 | a string matched against `%d.%m.%Y` splits at its first two dots into a day and a month field without dots and a rest |
| Dates.DayField | main.py:42 | the `%d` field reads a day from 1 to 31; which texts it reads is stated by `Dates.DayFieldSpelling` |
| Dates.MonthField | main.py:42 | the `%m` field reads a month from 1 to 12; which texts it reads is stated by `Dates.MonthFieldSpelling` |
| Dates.YearField | main.py:42 | the `%Y` field reads a year from 0 to 9999; which texts it reads is stated by `Dates.YearFieldSpelling` |
| Dates.DayFieldSpelling | main.py:42 | `%d` reads day `v` from a text exactly when `1 <= v <= 31` and the text is `v` in two digits, or for `v < 10` in one digit or a space and one digit |
| Dates.MonthFieldSpelling | main.py:42 | `%m` reads month `v` exactly when `1 <= v <= 12` and the text is `v` in two digits, or for `v < 10` in one digit |
| Dates.YearFieldSpelling | main.py:42 | `%Y` reads year `v` exactly from its four-digit zero-padded text |
| Dates.Parse | main.py:42 | a successful `strptime(...).date()` is a valid date |
| Dates.ParseSound | main.py:42 | every text `strptime` accepts is a day spelling, a dot, a month spelling, a dot and the four-digit year of the date it returns |
| Dates.ParseComplete | main.py:42 | every such spelling of every valid date is accepted and parses to that date |
| Dates.ParseFormat | main.py:42-43 | the text `date_to_string` produces parses back to the same date |
| Dates.FormatInjective | main.py:160-161 | different dates have different canonical texts |
| Fields.AllDigits | main.py:23 | `isdigit()` holds exactly for a nonempty string of digits |
| Fields.NewPhone | main.py:20-24 | a phone is built exactly from a ten-digit string, which it keeps verbatim; anything else raises `WrongSizeNumberError` |
| Fields.NewBirthday | main.py:38-45 | a birthday is built exactly from the texts `strptime` accepts and keeps the date re-rendered in canonical form; anything else raises `WrongBirthdayError` |
| Fields.CanonicalBirthdayParses | main.py:43 | a stored birthday text is exactly one that parses to a date whose rendering is that same text |
| Fields.NewBirthdayParsesBack | main.py:42-43 | the stored text parses to the date that was given |
| Fields.NewBirthdayCanonical | main.py:38-45 | validating a stored birthday again gives the same birthday |
| Fields.NewBirthdayKeepsCanonical | main.py:38-45 | canonical text is stored verbatim |
| Fields.NewBirthdayPads | main.py:42-43 | one-digit days and months, and a space before a one-digit day, are accepted and stored padded to two digits |
| Fields.NewBirthdaySameDate | main.py:42-43 | two texts give the same stored birthday exactly when they spell the same date |
| Records.RemoveFirst | main.py:60-64 | removal fails with `NotFoundNumber` exactly when no phone has the value; otherwise it drops the first such phone, one copy in the multiset, and keeps the others in order |
| Records.ReplaceFirst | main.py:66-71 | editing fails with `NotFoundNumber` exactly when the old number is absent or the new one is malformed; otherwise only the slot of the first old number changes, to the new number |
| Records.AddThenRemove | main.py:57-64 | removing a number just added, that was not there before, restores the list |
| Records.RemoveOnlyOccurrence | main.py:60-64 | a number held once can be removed once, and a second removal raises `NotFoundNumber` |
| Records.ReplaceThenRestore | main.py:66-71 | replacing a number by an absent one and back restores the list |
| Records.ReplaceMultiset | main.py:66-71 | an edit swaps one copy of the old number for the new one and keeps every other number |
| Records.Record.constructor | main.py:49-52 | a new record has the given name, no phones and no birthday |
| Records.Record.AddBirthday | main.py:54-55 | sets or replaces the birthday when the text is a valid date; on error nothing changes |
| Records.Record.AddPhone | main.py:57-58 | appends a valid number, keeping duplicates; on error nothing changes |
| Records.Record.FindPhone | main.py:73-78 | returns a phone with the value exactly when one is in the list, otherwise `None`; phones are values here, so that phone equals the first match |
| Records.Record.RemovePhone | main.py:60-64 | the new phone list is `RemoveFirst` of the old one, or unchanged with `NotFoundNumber` |
| Records.Record.EditPhone | main.py:66-71 | the new phone list is `ReplaceFirst` of the old one, or unchanged with `NotFoundNumber` |
| Upcoming.ReplaceYear | main.py:109 | `replace(year=y)` fails exactly for 29 February in a year that is not a leap year, or a year out of range |
| Upcoming.ShiftWeekend | main.py:112-113 | a Saturday or Sunday moves to the Monday after it, by `7 - weekday` days; a weekday stays |
| Upcoming.WeekendHasRoom | main.py:113 | moving a weekend day to Monday never leaves the representable range |
| Upcoming.Anchored | main.py:108-109 | the stored birthday moved into the given year, when there is one: a valid date in that year with the parsed birthday's month and day |
| Upcoming.InWindow | main.py:111 | the moved birthday lies between today and `days` days later, inclusive; no ensures of its own, it is the condition of `Upcoming.CongratulationListed` |
| Upcoming.Congratulation | main.py:105-117 | one pass of the loop; no ensures of its own, its meaning is stated by `Upcoming.CongratulationListed`, `Upcoming.CongratulationRaises` and `Upcoming.PassedNotListed` |
| Upcoming.UpcomingBirthdays | main.py:99-118 | the whole query over the contacts in iteration order; no ensures of its own, its meaning is stated by `Upcoming.UpcomingRaises`, `Upcoming.UpcomingExact`, `Upcoming.UpcomingOrdered` and `Upcoming.UpcomingOnWeekdays` |
| Upcoming.CongratulationListed | main.py:105-117 | a contact is listed exactly when its birthday, moved into today's year, lies between today and `days` days later; the date listed is the `date_to_string` text of that day or of the Monday after it, a weekday at most two days past the window |
| Upcoming.CongratulationRaises | main.py:108-109 | a contact makes the query raise exactly when its birthday does not parse or cannot be moved into today's year |
| Upcoming.CanonicalRaises | main.py:108-109 | for a birthday in the canonical form every record keeps, a contact makes the query raise exactly when its birthday is 29 February and today's year is not a leap year |
| Upcoming.PassedNotListed | main.py:109-111 | a birthday already past in today's year is not listed |
| Upcoming.UpcomingRaises | main.py:103-118 | the query raises exactly when some contact does |
| Upcoming.UpcomingExact | main.py:103-118 | the greetings returned are exactly those of the contacts listed |
| Upcoming.UpcomingOrdered | main.py:103-118 | greetings come in the iteration order of their contacts |
| Upcoming.UpcomingOnWeekdays | main.py:111-117 | every date returned is the canonical text of a weekday, no earlier than today and at most two days past the window |
| Book.AddressBook.constructor | main.py:84 | a new book is empty |
| Book.AddressBook.AddRecord | main.py:86-87 | the record goes under its name; a new name goes last in iteration order, an existing one keeps its place |
| Book.AddressBook.Find | main.py:89-91 | returns the record stored under the name exactly when there is one |
| Book.AddressBook.Delete | main.py:93-97 | removes the name and only that name from the map and the order; a missing name leaves the book unchanged and returns the message |
| Book.AddressBook.UpcomingRaisesOnLeapDay | main.py:103-109 | for a book built by its operations, the query raises exactly when some record's birthday is 29 February and today's year is not a leap year |
| Book.DropKey | main.py:95 | deleting one key from keys without repeats leaves every other key, once each |
| Book.CongratulationFor | main.py:104-117 | the loop body, written as statements, computes the contact's `Congratulation` |
| Book.UpcomingStep | main.py:103-117 | one pass of the loop either raises or adds the contact's greeting, if any, to those already collected |
| Book.AddressBook.GetUpcomingBirthdays | main.py:99-118 | the loop returns `UpcomingBirthdays` of the records in iteration order |
| Handlers.AddContact | main.py:164-175 | too few words raise before anything changes; otherwise the phone is added to the existing or a new record, and a new record stays even when the phone is rejected |
| Handlers.ChangeContact | main.py:178-189 | the replies for two words and for non-digit numbers, the raise for malformed numbers or a missing contact, and otherwise the record's `EditPhone` |
| Handlers.AddBirthday | main.py:204-212 | too few words raise before anything changes; otherwise sets the birthday of a record without one, refuses to overwrite, and raises for a missing contact or an invalid date |
| Scenarios.ThursdayListed | main.py:99-118 | on Tuesday 10.06.2025 a birthday on 12.06 is listed as `12.06.2025` |
| Scenarios.SaturdayMovedToMonday | main.py:112-113 | on 10.06.2025 a birthday on Saturday 14.06 is listed as `16.06.2025` |
| Scenarios.TenDaysAheadExcluded | main.py:111 | on 10.06.2025 a birthday on 20.06 is outside a seven-day window |
| Scenarios.LeapDayRaises | main.py:108-109 | a 29.02 birthday makes the query raise in 2025 |
| Scenarios.ImpossibleDateRefused | main.py:38-45 | `31.02.2024` is refused with `WrongBirthdayError` |
| Scenarios.OneDigitFieldsPadded | main.py:38-45 | `1.1.2020` is accepted and stored as `01.01.2020` |

## Left out

- Persistence with `pickle` (`save_data`, `load_data`), the command loop `main` and `parse_input` are not modelled. They are file and console I/O.
- `input_error` is not modelled. The handlers return the exception they let escape instead of the reply that decorator would print.
- The read-only handlers `what_number`, `show_birthday`, `all_contacts` and `birthdays`, and the `__str__` methods, are not modelled. They only format text.
- `date.today()` is not modelled: the current date is a parameter of `GetUpcomingBirthdays`.
- The default `days=7` of `get_upcoming_birthdays` is not modelled: the window is always an explicit argument.
- `Fields.AllDigits`, `Dates.DayField` and `Dates.YearField` accept only ASCII digits. Python's `isdigit` also accepts other Unicode digits, superscripts such as `²` included, and the `\d` in the `%d` and `%Y` patterns of `strptime` other Unicode decimal digits. The `%m` pattern has no `\d`, so `Dates.MonthField` is exact.
- `Dates.Format` writes the year as four digits with leading zeros. The model assumes `strftime`'s `%Y` pads years below 1000 to four digits; some C libraries do not. Where they do not, a birthday before the year 1000 is stored as text such as `01.01.999`. That text fails `%Y` when `get_upcoming_birthdays` parses it again, which is a second way the query raises that the model does not capture.
- Upcoming.UpcomingOrdered: it states the order through pairs of entry indices, and does not state that the result is a subsequence.
- Greetings are a datatype with the two fields of the dictionary the program builds, not a Python `dict`.
