/**
 * The command handlers that change the book: `add`, `change` and `add-birthday`.
 * Each takes the words after the command and returns the reply, or the
 * exception it lets escape; turning an exception into a reply is not modelled.
 */
module Handlers {
  import opened Outcomes
  import opened Fields
  import opened Records
  import opened Book

  /** What a handler raises. */
  datatype Raised =
    | Unpacking        // `ValueError`: too few or too many words to unpack
    | NoSuchContact    // `AttributeError`: a method called on the `None` that `find` gave back
    | Field(error: Error)

  /**
   * The record stored under the first word, which is all a handler may change
   * besides the book. With fewer than two words every handler raises while
   * unpacking, before it looks anything up, so then it may change nothing.
   */
  ghost function Named(book: AddressBook, args: seq<string>): set<object>
    reads book
  {
    if |args| >= 2 && args[0] in book.data then {book.data[args[0]]} else {}
  }

  /**
   * `add_contact`: finds or creates the record for the name, then adds the
   * phone. A new record is stored before the phone is validated, so a bad
   * number still leaves an empty record behind.
   */
  method AddContact(args: seq<string>, book: AddressBook) returns (r: Result<string, Raised>)
    requires book.Valid() && book.RecordsValid()
    modifies book, Named(book, args)
    ensures book.Valid() && book.RecordsValid()
    ensures |args| < 2 ==> r == Err(Unpacking) && book.data == old(book.data) && book.order == old(book.order)
    ensures |args| >= 2 && args[0] in old(book.data) ==>
      var record := old(book.data)[args[0]];
      book.data == old(book.data) && book.order == old(book.order) && record.birthday == old(record.birthday) &&
      if args[1] == "" then r == Ok("Contact updated.") && record.phones == old(record.phones)
      else match NewPhone(args[1])
        case Ok(p) => r == Ok("Contact updated.") && record.phones == old(record.phones) + [p]
        case Err(e) => r == Err(Field(e)) && record.phones == old(record.phones)
    ensures |args| >= 2 && args[0] !in old(book.data) ==>
      var name := args[0];
      name in book.data && fresh(book.data[name]) &&
      book.data == old(book.data)[name := book.data[name]] && book.order == old(book.order) + [name] &&
      var record := book.data[name];
      record.birthday == None &&
      if args[1] == "" then r == Ok("Contact added.") && record.phones == []
      else match NewPhone(args[1])
        case Ok(p) => r == Ok("Contact added.") && record.phones == [p]
        case Err(e) => r == Err(Field(e)) && record.phones == []
  {
    if |args| < 2 {
      return Err(Unpacking);
    }
    var name, phone := args[0], args[1];
    var found := book.Find(name);
    var record: Record;
    var message := "Contact updated.";
    if found.None? {
      record := new Record(name);
      book.AddRecord(record);
      message := "Contact added.";
    } else {
      record := found.value;
    }
    if phone != "" {
      var added := record.AddPhone(phone);
      if added.Fail? {
        return Err(Field(added.error));
      }
    }
    return Ok(message);
  }

  /**
   * `change_contact`: both numbers must be digits and ten of them before the
   * record's phone is replaced; a name without a record raises `AttributeError`.
   */
  method ChangeContact(args: seq<string>, book: AddressBook) returns (r: Result<string, Raised>)
    requires book.Valid() && book.RecordsValid()
    modifies Named(book, args)
    ensures book.Valid() && book.RecordsValid()
    ensures |args| == 2 ==> r == Ok("Please enter additional number")
    ensures |args| != 2 && |args| != 3 ==> r == Err(Unpacking)
    ensures |args| == 3 && !(IsDigits(args[1]) && IsDigits(args[2])) ==>
      r == Ok("Please provide second and third arguments as digital numbers")
    ensures |args| == 3 && IsDigits(args[1]) && IsDigits(args[2]) ==>
      if !IsPhoneNumber(args[1]) || !IsPhoneNumber(args[2]) then r == Err(Field(WrongSizeNumber))
      else if args[0] !in book.data then r == Err(NoSuchContact)
      else
        var record := book.data[args[0]];
        match ReplaceFirst(old(record.phones), args[1], args[2])
        case Ok(ps) => r == Ok("The contact has been changed") && record.phones == ps
        case Err(e) => r == Err(Field(e))
    ensures |args| > 0 && args[0] in book.data ==>
      var record := book.data[args[0]];
      record.birthday == old(record.birthday) &&
      (r != Ok("The contact has been changed") ==> record.phones == old(record.phones))
  {
    if |args| == 2 {
      return Ok("Please enter additional number");
    }
    if |args| != 3 {
      return Err(Unpacking);
    }
    var name, oldPhone, newPhone := args[0], args[1], args[2];
    if !AllDigits(oldPhone) || !AllDigits(newPhone) {
      return Ok("Please provide second and third arguments as digital numbers");
    }
    var checkedOld := NewPhone(oldPhone);
    if checkedOld.Err? {
      return Err(Field(checkedOld.error));
    }
    var checkedNew := NewPhone(newPhone);
    if checkedNew.Err? {
      return Err(Field(checkedNew.error));
    }
    var found := book.Find(name);
    if found.None? {
      return Err(NoSuchContact);
    }
    var edited := found.value.EditPhone(oldPhone, newPhone);
    if edited.Fail? {
      return Err(Field(edited.error));
    }
    return Ok("The contact has been changed");
  }

  /**
   * `add_birthday`: sets the birthday of a record that has none; a record that
   * already has one is left as it is.
   */
  method AddBirthday(args: seq<string>, book: AddressBook) returns (r: Result<string, Raised>)
    requires book.Valid() && book.RecordsValid()
    modifies Named(book, args)
    ensures book.Valid() && book.RecordsValid()
    ensures |args| < 2 ==> r == Err(Unpacking)
    ensures |args| >= 2 && args[0] !in book.data ==> r == Err(NoSuchContact)
    ensures |args| >= 2 && args[0] in book.data ==>
      var record := book.data[args[0]];
      record.phones == old(record.phones) &&
      if old(record.birthday).Some? then
        r == Ok("This contact already has a birthday date.") && record.birthday == old(record.birthday)
      else match NewBirthday(args[1])
        case Ok(b) => r == Ok("The birthday has been added") && record.birthday == Some(b)
        case Err(e) => r == Err(Field(e)) && record.birthday == None
  {
    if |args| < 2 {
      return Err(Unpacking);
    }
    var name, birthday := args[0], args[1];
    var found := book.Find(name);
    if found.None? {
      return Err(NoSuchContact);
    }
    var record := found.value;
    if record.birthday.None? {
      var added := record.AddBirthday(birthday);
      if added.Fail? {
        return Err(Field(added.error));
      }
      return Ok("The birthday has been added");
    }
    return Ok("This contact already has a birthday date.");
  }
}
