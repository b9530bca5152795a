/**
 * The validated field values of a contact: a phone number of ten digits and a
 * birthday kept as the canonical text `DD.MM.YYYY` of a real date. A failed
 * validation is an `Err` carrying the kind of exception Python raises.
 */
module Fields {
  import opened Outcomes
  import opened Dates

  /** The exceptions the contact model raises. */
  datatype Error =
    | WrongSizeNumber  // `WrongSizeNumberError`: a phone number that is not ten digits
    | NotFoundNumber   // `NotFoundNumber`: a phone number a record does not hold, or a bad replacement for one
    | WrongBirthday    // `WrongBirthdayError`: a birthday that is not a date written day.month.year
    | InvalidDate      // the bare `ValueError` from `strptime` or `date.replace` while listing birthdays

  datatype Phone = Phone(value: string)

  datatype Birthday = Birthday(value: string)

  /** A string `str.isdigit()` accepts: nonempty, and every character a decimal digit. */
  predicate IsDigits(s: string) {
    |s| > 0 && forall i :: 0 <= i < |s| ==> IsDigit(s[i])
  }

  /** `str.isdigit()`, a scan over the characters. */
  function AllDigits(s: string): (b: bool)
    ensures b <==> IsDigits(s)
  {
    if |s| == 0 then false
    else if |s| == 1 then IsDigit(s[0])
    else IsDigit(s[0]) && AllDigits(s[1..])
  }

  /** A phone number as the record keeps it. */
  predicate IsPhoneNumber(s: string) {
    |s| == 10 && IsDigits(s)
  }

  /** `Phone(value)`: keeps `value` verbatim when it is ten digits, and raises otherwise. */
  function NewPhone(value: string): (r: Result<Phone, Error>)
    ensures r.Ok? <==> IsPhoneNumber(value)
    ensures r.Ok? ==> r.value.value == value
    ensures r.Err? ==> r.error == WrongSizeNumber
  {
    if |value| != 10 || !AllDigits(value) then Err(WrongSizeNumber) else Ok(Phone(value))
  }

  /** The text of a birthday the record keeps: the canonical rendering of a real date. */
  ghost predicate IsCanonicalBirthday(s: string) {
    exists d :: Valid(d) && Format(d) == s
  }

  /** Canonical text is exactly the text that parses to a date rendered back as the same text. */
  lemma CanonicalBirthdayParses(s: string)
    ensures IsCanonicalBirthday(s) <==> Parse(s).Some? && Format(Parse(s).value) == s
  {
    if IsCanonicalBirthday(s) {
      var d :| Valid(d) && Format(d) == s;
      ParseFormat(d);
    }
    if Parse(s).Some? && Format(Parse(s).value) == s {
      assert Valid(Parse(s).value);
    }
  }

  /**
   * `Birthday(value)`: accepts exactly the text `strptime(value, "%d.%m.%Y")`
   * accepts and keeps the date re-rendered as `DD.MM.YYYY`.
   */
  function NewBirthday(value: string): (r: Result<Birthday, Error>)
    ensures r.Ok? <==> Parse(value).Some?
    ensures r.Ok? ==> IsCanonicalBirthday(r.value.value) && r.value.value == Format(Parse(value).value)
    ensures r.Err? ==> r.error == WrongBirthday
  {
    match Parse(value)
    case Some(d) => Ok(Birthday(Format(d)))
    case None => Err(WrongBirthday)
  }

  /** The kept text parses back to the date that was given. */
  lemma NewBirthdayParsesBack(value: string)
    requires NewBirthday(value).Ok?
    ensures Parse(NewBirthday(value).value.value) == Parse(value)
  {
    ParseFormat(Parse(value).value);
  }

  /** Validating a kept birthday again changes nothing: the canonical form is a fixed point. */
  lemma NewBirthdayCanonical(value: string)
    requires NewBirthday(value).Ok?
    ensures NewBirthday(NewBirthday(value).value.value) == NewBirthday(value)
  {
    var d := Parse(value).value;
    ParseFormat(d);
  }

  /** Canonical text is kept verbatim. */
  lemma NewBirthdayKeepsCanonical(value: string)
    requires IsCanonicalBirthday(value)
    ensures NewBirthday(value) == Ok(Birthday(value))
  {
    CanonicalBirthdayParses(value);
  }

  /** One-digit days and months, and a space before a one-digit day, are accepted and padded to two digits. */
  lemma {:induction false} NewBirthdayPads(d: Date, dt: string, mt: string)
    requires Valid(d) && DaySpelling(dt, d.day) && MonthSpelling(mt, d.month)
    ensures NewBirthday(dt + "." + mt + "." + Pad4(d.year)) == Ok(Birthday(Format(d)))
  {
    ParseComplete(dt + "." + mt + "." + Pad4(d.year), dt, mt, d);
  }

  /** Two texts give the same birthday exactly when they spell the same date. */
  lemma {:induction false} NewBirthdaySameDate(a: string, b: string)
    requires NewBirthday(a).Ok? && NewBirthday(b).Ok?
    ensures NewBirthday(a) == NewBirthday(b) <==> Parse(a) == Parse(b)
  {
    if NewBirthday(a) == NewBirthday(b) {
      FormatInjective(Parse(a).value, Parse(b).value);
    }
  }
}
