/** The command handlers: each takes the argument words of one input line
    and the book, and returns the reply text (or the exception that escapes). */
module Commands {
  import opened Outcomes
  import opened Dates
  import opened DateText
  import opened Phones
  import opened Contacts
  import opened Book

  const ContactAdded := "Contact added."
  const BirthdayAdded := "Birthday added."
  const ContactNotFound := "Contact not found."
  const PhoneUsage := "Usage: phone [name]"
  const ShowBirthdayUsage := "Usage: show-birthday [name]"
  const BirthdayNotSet := "Birthday not set for this contact."
  const EditUsage := "Usage: edit [name] phone [new phone]"

  /** The birthday records set by `add-birthday` on the contact called `name`. */
  function SetBirthday(cs: seq<Contact>, name: string, d: ValidDate): seq<Contact>
  {
    seq(|cs|, i requires 0 <= i < |cs| => if cs[i].name == name then cs[i].(birthday := Some(d)) else cs[i])
  }

  /** `phone [name]`: the first phone of the contact, a placeholder when it
      has none, "Contact not found." or the usage text. */
  function GetContactPhoneCommand(args: seq<string>, book: AddressBook): (text: string)
    reads book, book.records.Values
    requires book.Valid()
    ensures |args| != 1 ==> text == PhoneUsage
    ensures |args| == 1 && Lookup(book.Snapshot(), args[0]).None? ==> text == ContactNotFound
    ensures |args| == 1 && Lookup(book.Snapshot(), args[0]).Some? ==>
              text == FirstPhoneOr(Lookup(book.Snapshot(), args[0]).value.phones)
  {
    if |args| != 1 then PhoneUsage
    else
      match book.GetRecord(args[0])
      case Some(record) => if record.phones != [] then record.phones[0] else NoPhone
      case None => ContactNotFound
  }

  /** `show-birthday [name]`: the stored birthday as `DD.MM.YYYY`, the "not
      set" text, "Contact not found." or the usage text. */
  function ShowBirthdayCommand(args: seq<string>, book: AddressBook): (text: string)
    reads book, book.records.Values
    requires book.Valid()
    ensures |args| != 1 ==> text == ShowBirthdayUsage
    ensures |args| == 1 && Lookup(book.Snapshot(), args[0]).None? ==> text == ContactNotFound
    ensures |args| == 1 && Lookup(book.Snapshot(), args[0]).Some? ==>
              text == match Lookup(book.Snapshot(), args[0]).value.birthday
                      case None => BirthdayNotSet
                      case Some(b) => Format(b)
  {
    if |args| != 1 then ShowBirthdayUsage
    else
      match book.GetRecord(args[0])
      case Some(record) =>
        (match record.birthday
         case Some(b) => Format(b)
         case None => BirthdayNotSet)
      case None => ContactNotFound
  }

  /** `edit [name] phone [new phone]`: with a known name the handler calls
      `edit_phone` with one argument instead of two, and the TypeError is
      not caught by `input_error`, so the command never edits anything. */
  function EditContactCommand(args: seq<string>, book: AddressBook): (reply: Reply)
    reads book, book.records.Values
    requires book.Valid()
    ensures |args| != 3 || args[1] != "phone" ==> reply == Says(EditUsage)
    ensures |args| == 3 && args[1] == "phone" ==>
              reply == if Lookup(book.Snapshot(), args[0]).Some? then Raised(MissingArgument) else Says(ContactNotFound)
    ensures reply != Says(Updated)
  {
    if |args| != 3 || args[1] != "phone" then Says(EditUsage)
    else
      match book.GetRecord(args[0])
      case Some(_) => Raised(MissingArgument)
      case None => Says(ContactNotFound)
  }

  /** `hello`. */
  function HelloCommand(args: seq<string>): string
  {
    "How can I help you?"
  }

  /** `all`. */
  function ShowAllContactsCommand(args: seq<string>, book: AddressBook): string
    reads book, book.records.Values
    requires book.Valid()
  {
    book.GetAllContacts()
  }

  /** `add [name] [phone]`. A new name gets a record with that phone (none
      for an empty phone). For a known name the handler validates the phone
      and passes the `Phone` object to `add_phone`, which reports a duplicate
      or fails on wrapping the object again; either way nothing is added. */
  method AddContactCommand(args: seq<string>, book: AddressBook) returns (reply: Reply)
    requires book.Valid()
    modifies book, book.records.Values
    ensures book.Valid()
    ensures |args| < 2 ==> reply == Caught(AddUsage) && book.Snapshot() == old(book.Snapshot())
    ensures |args| >= 2 && args[0] in old(book.records) ==>
              reply == Caught(if !IsPhone(args[1]) then InvalidPhone
                              else if args[1] in old(book.records[args[0]].phones) then DuplicatePhone
                              else NoAttribute)
              && book.Snapshot() == old(book.Snapshot())
    ensures |args| >= 2 && args[0] !in old(book.records) && (args[1] == "" || IsPhone(args[1])) ==>
              reply == Says(ContactAdded)
              && book.Snapshot() == old(book.Snapshot()) + [Contact(args[0], if args[1] == "" then [] else [args[1]], None)]
    ensures |args| >= 2 && args[0] !in old(book.records) && args[1] != "" && !IsPhone(args[1]) ==>
              reply == Caught(InvalidPhone) && book.Snapshot() == old(book.Snapshot())
    ensures |args| >= 2 && reply == Says(ContactAdded) && args[1] != "" ==>
              GetContactPhoneCommand([args[0]], book) == args[1]
    ensures |args| >= 2 && reply == Says(ContactAdded) ==>
              args[0] in book.records && book.records[args[0]].phones == (if args[1] == "" then [] else [args[1]])
    ensures forall n :: n in old(book.records) ==>
              n in book.records && book.records[n] == old(book.records[n]) && book.records[n].phones == old(book.records[n].phones)
    ensures reply == Says(ContactAdded) ==> book.records.Keys == old(book.records.Keys) + {args[0]}
    ensures reply != Says(ContactAdded) ==> book.records == old(book.records)
    ensures fresh(book.records.Values - old(book.records.Values))
  {
    if |args| < 2 {
      return Caught(AddUsage);
    }
    if args[0] in book.records {
      ghost var before := book.Snapshot();
      reply := AddToKnownContact(args[0], args[1], book);
      assert unchanged(book) && unchanged(book.records.Values);
      assert book.Snapshot() == before;
    } else {
      reply := AddNewContact(args[0], args[1], book);
    }
  }

  /** The branch of `add` for a name already in the book. The ValueErrors
      of an invalid or duplicate phone are caught by the handler's own
      `except ValueError`; the AttributeError from wrapping the `Phone`
      object again is caught by `input_error`. Both return `str(e)`. */
  method AddToKnownContact(name: string, phone: string, book: AddressBook) returns (reply: Reply)
    requires book.Valid() && name in book.records
    modifies book.records[name]
    ensures reply == Caught(if !IsPhone(phone) then InvalidPhone
                            else if phone in old(book.records[name].phones) then DuplicatePhone
                            else NoAttribute)
    ensures unchanged(book.records[name])
    ensures forall n :: n in book.records ==> book.records[n].phones == old(book.records[n].phones)
  {
    var record := book.records[name];
    var checked := Validate(phone);
    if checked.Err? {
      return Caught(checked.error);
    }
    var err := record.AddPhone(PhoneObject(checked.value));
    return Caught(err.value);
  }

  /** The branch of `add` for a new name. */
  method AddNewContact(name: string, phone: string, book: AddressBook) returns (reply: Reply)
    requires book.Valid() && name !in book.records
    modifies book
    ensures book.Valid()
    ensures phone == "" || IsPhone(phone) ==>
              reply == Says(ContactAdded)
              && book.Snapshot() == old(book.Snapshot()) + [Contact(name, if phone == "" then [] else [phone], None)]
              && book.records.Keys == old(book.records.Keys) + {name}
              && name in book.records && book.records[name].phones == (if phone == "" then [] else [phone])
              && book.GetRecord(name) == Some(book.records[name])
    ensures forall n :: n in old(book.records) ==>
              n in book.records && book.records[n] == old(book.records[n]) && book.records[n].phones == old(book.records[n].phones)
    ensures phone != "" && !IsPhone(phone) ==> reply == Caught(InvalidPhone) && unchanged(book)
    ensures fresh(book.records.Values - old(book.records.Values))
  {
    var created := Record.Create(name, phone);
    if created.Err? {
      return Caught(created.error);
    }
    ghost var before := book.Snapshot();
    book.AddRecord(created.value);
    assert book.Snapshot() == before + [Contact(name, if phone == "" then [] else [phone], None)];
    LookupContactsOf(book.order, book.records, name);
    return Says(ContactAdded);
  }

  /** `add-birthday [name] [DD.MM.YYYY]`. A ValueError from the date text is
      caught and returned, and the previous birthday stays. */
  method AddBirthdayCommand(args: seq<string>, book: AddressBook) returns (reply: Reply)
    requires book.Valid()
    modifies book.records.Values
    ensures book.Valid()
    ensures |args| != 2 ==> reply == Caught(BirthdayUsage) && book.Snapshot() == old(book.Snapshot())
    ensures |args| == 2 && args[0] !in book.records ==>
              reply == Says(ContactNotFound) && book.Snapshot() == old(book.Snapshot())
    ensures |args| == 2 && args[0] in book.records && Parse(args[1]).Err? ==>
              reply == Caught(BadDate) && book.Snapshot() == old(book.Snapshot())
    ensures |args| == 2 && args[0] in book.records && Parse(args[1]).Ok? ==>
              reply == Says(BirthdayAdded)
              && book.Snapshot() == SetBirthday(old(book.Snapshot()), args[0], Parse(args[1]).value)
    ensures |args| == 2 && reply == Says(BirthdayAdded) && IsCanonical(args[1]) ==>
              ShowBirthdayCommand([args[0]], book) == args[1]
    ensures forall n :: n in book.records ==> book.records[n].phones == old(book.records[n].phones)
  {
    if |args| != 2 {
      return Caught(BirthdayUsage);
    }
    var name, text := args[0], args[1];
    var found := book.GetRecord(name);
    if found.None? {
      LookupContactsOf(book.order, book.records, name);
      return Says(ContactNotFound);
    }
    var record := found.value;
    ghost var before := book.Snapshot();
    var err := record.AddBirthday(text);
    if err.Some? {
      return Caught(err.value);
    }
    var d := Parse(text).value;
    forall i | 0 <= i < |book.order|
      ensures book.Snapshot()[i] == SetBirthday(before, name, d)[i]
    {
      assert book.records[book.order[i]].name == book.order[i];
    }
    assert book.Snapshot() == SetBirthday(before, name, d);
    assert record.birthday == Some(d);
    assert ShowBirthdayCommand([name], book) == Format(d) by {
      assert book.GetRecord(name) == Some(record);
    }
    if IsCanonical(text) {
      FormatParse(text);
    }
    return Says(BirthdayAdded);
  }

  /** Adding a contact, then the same phone again, then asking for the
      phone: the second `add` reports the duplicate and the phone stays. */
  method DuplicatePhoneSession(name: string, phone: string) returns (first: Reply, second: Reply, shown: string)
    requires IsPhone(phone)
    ensures first == Says(ContactAdded) && second == Caught(DuplicatePhone) && shown == phone
    ensures Message(second.failure) == Some("Phone number already exists for this contact")
  {
    var book := new AddressBook();
    first := AddContactCommand([name, phone], book);
    second := AddContactCommand([name, phone], book);
    LookupContactsOf(book.order, book.records, name);
    shown := GetContactPhoneCommand([name], book);
  }

  /** A second, different phone for a known contact is refused, and the
      contact keeps only its first phone. */
  method SecondPhoneSession(name: string, first: string, second: string) returns (reply: Reply, phones: seq<string>)
    requires IsPhone(first) && IsPhone(second) && first != second
    ensures reply == Caught(NoAttribute) && phones == [first]
  {
    var book := new AddressBook();
    var r := AddContactCommand([name, first], book);
    assert name in book.records && book.records[name].phones == [first];
    reply := AddContactCommand([name, second], book);
    phones := book.records[name].phones;
  }

  /** A birthday given to a new contact as `DD.MM.YYYY` is what
      `show-birthday` then shows. */
  method BirthdaySession(birthday: ValidDate) returns (reply: Reply, shown: string)
    ensures reply == Says(BirthdayAdded) && shown == Format(birthday)
  {
    var book := new AddressBook();
    var alice, day := "Alice", Format(birthday);
    var r := AddContactCommand([alice, "0991234567"], book);
    assert alice in book.records;
    ParseFormat(birthday);
    reply := AddBirthdayCommand([alice, day], book);
    shown := ShowBirthdayCommand([alice], book);
  }

  /** `edit` on a contact that exists always escapes with an exception. */
  method EditSession() returns (reply: Reply)
    ensures reply == Raised(MissingArgument)
  {
    var book := new AddressBook();
    var alice := "Alice";
    var r := AddContactCommand([alice, "0991234567"], book);
    LookupContactsOf(book.order, book.records, alice);
    reply := EditContactCommand([alice, "phone", "0501234567"], book);
  }
}
