/**
 * One contact: a name fixed at creation, an ordered list of phones that may
 * hold duplicates, and at most one birthday. The phone operations change the
 * list in place; each is specified by a function of the old list.
 */
module Records {
  import opened Outcomes
  import opened Dates
  import opened Fields
  import Seqs

  /** Every phone in the list is a well-formed number. */
  ghost predicate PhonesValid(ps: seq<Phone>) {
    forall i :: 0 <= i < |ps| ==> IsPhoneNumber(ps[i].value)
  }

  /** Dropping an element keeps every phone well-formed. */
  lemma DropKeepsValid(ps: seq<Phone>, k: nat)
    requires PhonesValid(ps) && k < |ps|
    ensures PhonesValid(ps[..k] + ps[k + 1..])
  {
    var qs := ps[..k] + ps[k + 1..];
    forall j | 0 <= j < |qs|
      ensures IsPhoneNumber(qs[j].value)
    {
      assert qs[j] == ps[if j < k then j else j + 1];
    }
  }

  /** `list.remove` of the first phone equal to `value`, which fails when there is none. */
  function RemoveFirst(ps: seq<Phone>, value: string): (r: Result<seq<Phone>, Error>)
    ensures r.Err? <==> Phone(value) !in ps
    ensures r.Err? ==> r.error == NotFoundNumber
    ensures r.Ok? ==> |r.value| == |ps| - 1 && multiset(r.value) == multiset(ps) - multiset{Phone(value)}
    ensures r.Ok? ==> var k := Seqs.IndexOf(ps, Phone(value)).value;
      r.value[..k] == ps[..k] && r.value[k..] == ps[k + 1..]
  {
    match Seqs.IndexOf(ps, Phone(value))
    case None => Err(NotFoundNumber)
    case Some(k) =>
      assert ps == ps[..k] + [ps[k]] + ps[k + 1..];
      Ok(ps[..k] + ps[k + 1..])
  }

  /**
   * The slot of the first phone equal to `oldValue` takes `Phone(newValue)`.
   * Both a missing `oldValue` and a malformed `newValue` fail with `NotFoundNumber`.
   */
  function ReplaceFirst(ps: seq<Phone>, oldValue: string, newValue: string): (r: Result<seq<Phone>, Error>)
    ensures r.Err? <==> Phone(oldValue) !in ps || !IsPhoneNumber(newValue)
    ensures r.Err? ==> r.error == NotFoundNumber
    ensures r.Ok? ==> var k := Seqs.IndexOf(ps, Phone(oldValue)).value;
      |r.value| == |ps| && r.value[k] == Phone(newValue) &&
      forall j :: 0 <= j < |ps| && j != k ==> r.value[j] == ps[j]
  {
    match Seqs.IndexOf(ps, Phone(oldValue))
    case None => Err(NotFoundNumber)
    case Some(k) =>
      match NewPhone(newValue)
      case Err(_) => Err(NotFoundNumber)
      case Ok(p) => Ok(ps[k := p])
  }

  /** Removing a number just added, that was not there before, gives back the old list. */
  lemma AddThenRemove(ps: seq<Phone>, value: string)
    requires Phone(value) !in ps
    ensures RemoveFirst(ps + [Phone(value)], value) == Ok(ps)
  {
    var qs := ps + [Phone(value)];
    Seqs.IndexOfAt(qs, Phone(value), |ps|);
    assert qs[..|ps|] == ps && qs[|ps| + 1..] == [];
    assert RemoveFirst(qs, value) == Ok(qs[..|ps|] + qs[|ps| + 1..]);
    assert qs[..|ps|] + qs[|ps| + 1..] == ps;
  }

  /** After its only occurrence is removed a number is gone, so removing it again fails. */
  lemma RemoveOnlyOccurrence(ps: seq<Phone>, value: string)
    requires multiset(ps)[Phone(value)] == 1
    ensures RemoveFirst(ps, value).Ok?
    ensures RemoveFirst(RemoveFirst(ps, value).value, value) == Err(NotFoundNumber)
  {
    var r := RemoveFirst(ps, value).value;
    assert multiset(r)[Phone(value)] == 0;
  }

  /** Replacing a number by a new one and back restores the list, when the new one was not there. */
  lemma {:induction false} ReplaceThenRestore(ps: seq<Phone>, oldValue: string, newValue: string)
    requires PhonesValid(ps) && Phone(newValue) !in ps
    requires ReplaceFirst(ps, oldValue, newValue).Ok?
    ensures ReplaceFirst(ReplaceFirst(ps, oldValue, newValue).value, newValue, oldValue) == Ok(ps)
  {
    var k := Seqs.IndexOf(ps, Phone(oldValue)).value;
    var qs := ReplaceFirst(ps, oldValue, newValue).value;
    assert qs == ps[k := Phone(newValue)];
    Seqs.IndexOfAt(qs, Phone(newValue), k);
    assert ps[k] == Phone(oldValue) && IsPhoneNumber(ps[k].value);
    assert qs[k := Phone(oldValue)] == ps;
  }

  /** Replacing keeps every number but the one replaced: one copy of the old number gives way to the new. */
  lemma ReplaceMultiset(ps: seq<Phone>, oldValue: string, newValue: string)
    requires ReplaceFirst(ps, oldValue, newValue).Ok?
    ensures multiset(ReplaceFirst(ps, oldValue, newValue).value) ==
      multiset(ps) - multiset{Phone(oldValue)} + multiset{Phone(newValue)}
  {
    var k := Seqs.IndexOf(ps, Phone(oldValue)).value;
    var qs := ReplaceFirst(ps, oldValue, newValue).value;
    assert qs == ps[k := Phone(newValue)];
    assert ps == ps[..k] + [ps[k]] + ps[k + 1..];
    assert qs == ps[..k] + [Phone(newValue)] + ps[k + 1..];
    Swap(ps[..k], Phone(oldValue), Phone(newValue), ps[k + 1..]);
  }

  /** Swapping one element of a sequence for another swaps one copy in its multiset. */
  lemma Swap(a: seq<Phone>, x: Phone, y: Phone, b: seq<Phone>)
    ensures multiset(a + [y] + b) == multiset(a + [x] + b) - multiset{x} + multiset{y}
  {
    assert multiset(a + [x] + b) == multiset(a) + multiset{x} + multiset(b);
    assert multiset(a + [y] + b) == multiset(a) + multiset{y} + multiset(b);
  }

  class Record {
    const name: string
    var phones: seq<Phone>
    var birthday: Option<Birthday>

    /** Every field value was built by its validating constructor. */
    ghost predicate Valid()
      reads this
    {
      PhonesValid(phones) && (birthday.Some? ==> IsCanonicalBirthday(birthday.value.value))
    }

    /** `Record(name)`: no phones and no birthday yet. */
    constructor (name: string)
      ensures this.name == name && phones == [] && birthday == None
      ensures Valid()
    {
      this.name := name;
      phones := [];
      birthday := None;
    }

    /** `add_birthday`: sets the birthday, replacing any earlier one, when the text is a date. */
    method AddBirthday(value: string) returns (outcome: Outcome<Error>)
      requires Valid()
      modifies this
      ensures Valid() && phones == old(phones)
      ensures match NewBirthday(value)
        case Ok(b) => outcome == Pass && birthday == Some(b)
        case Err(e) => outcome == Fail(e) && birthday == old(birthday)
    {
      match NewBirthday(value)
      case Err(e) =>
        return Fail(e);
      case Ok(b) =>
        birthday := Some(b);
        return Pass;
    }

    /** `add_phone`: appends the number when it is ten digits; duplicates are kept. */
    method AddPhone(value: string) returns (outcome: Outcome<Error>)
      requires Valid()
      modifies this
      ensures Valid() && birthday == old(birthday)
      ensures match NewPhone(value)
        case Ok(p) => outcome == Pass && phones == old(phones) + [p]
        case Err(e) => outcome == Fail(e) && phones == old(phones)
    {
      var p := NewPhone(value);
      if p.Err? {
        return Fail(p.error);
      }
      phones := phones + [p.value];
      outcome := Pass;
    }

    /** `find_phone`: the first phone whose value is `value`, or `None`. */
    method FindPhone(value: string) returns (r: Option<Phone>)
      ensures r.Some? <==> exists i :: 0 <= i < |phones| && phones[i].value == value
      ensures r.Some? ==> r.value.value == value
    {
      for i := 0 to |phones|
        invariant forall j :: 0 <= j < i ==> phones[j].value != value
      {
        if phones[i].value == value {
          return Some(phones[i]);
        }
      }
      return None;
    }

    /** `remove_phone`: drops the first phone equal to `value`; a missing one raises `NotFoundNumber`. */
    method RemovePhone(value: string) returns (outcome: Outcome<Error>)
      requires Valid()
      modifies this
      ensures Valid() && birthday == old(birthday)
      ensures match RemoveFirst(old(phones), value)
        case Ok(ps) => outcome == Pass && phones == ps
        case Err(e) => outcome == Fail(e) && phones == old(phones)
    {
      var found := FindPhone(value);
      if found.None? {
        return Fail(NotFoundNumber);
      }
      assert found.value == Phone(value) && Phone(value) in phones;
      var k := Seqs.IndexOf(phones, found.value).value;
      assert RemoveFirst(phones, value) == Ok(phones[..k] + phones[k + 1..]);
      DropKeepsValid(phones, k);
      phones := phones[..k] + phones[k + 1..];
      outcome := Pass;
    }

    /** `edit_phone`: puts `newValue` in the slot of the first phone equal to `oldValue`. */
    method EditPhone(oldValue: string, newValue: string) returns (outcome: Outcome<Error>)
      requires Valid()
      modifies this
      ensures Valid() && birthday == old(birthday)
      ensures match ReplaceFirst(old(phones), oldValue, newValue)
        case Ok(ps) => outcome == Pass && phones == ps
        case Err(e) => outcome == Fail(e) && phones == old(phones)
    {
      var found := FindPhone(oldValue);
      if found.None? {
        return Fail(NotFoundNumber);
      }
      assert found.value == Phone(oldValue) && Phone(oldValue) in phones;
      var k := Seqs.IndexOf(phones, found.value).value;
      var p := NewPhone(newValue);
      if p.Err? {
        // WrongSizeNumberError is a ValueError, and the handler for a missing number catches it
        return Fail(NotFoundNumber);
      }
      phones := phones[k := p.value];
      outcome := Pass;
    }
  }
}
