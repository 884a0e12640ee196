/** One contact (`Record`): a name, a list of phone numbers and an optional
    birthday, with the operations that change them in place. */
module Contacts {
  import opened Outcomes
  import opened Text
  import opened Dates
  import opened DateText
  import opened Phones

  /** The argument of `Record.add_phone`: a plain string, or a `Phone` object
      that was already built (and so validated) from the string `value`. */
  datatype PhoneArg = PlainString(s: string) | PhoneObject(value: string)

  /** The state of one record as a value. */
  datatype Contact = Contact(name: string, phones: seq<string>, birthday: Option<ValidDate>)

  /** `[p for p in phones if p.value != x]`. */
  function Without(phones: seq<string>, x: string): (r: seq<string>)
    ensures |r| <= |phones|
  {
    if phones == [] then []
    else if phones[0] == x then Without(phones[1..], x)
    else [phones[0]] + Without(phones[1..], x)
  }

  /** The position of the first entry equal to `x`, if any. */
  function FirstIndex(phones: seq<string>, x: string): (r: Option<nat>)
    ensures r.None? <==> x !in phones
    ensures r.Some? ==> r.value < |phones| && phones[r.value] == x
    ensures r.Some? ==> forall j :: 0 <= j < r.value ==> phones[j] != x
  {
    if phones == [] then None
    else if phones[0] == x then Some(0)
    else match FirstIndex(phones[1..], x)
      case None => None
      case Some(k) => Some(k + 1)
  }

  /** The phone list after `edit_phone(old, new)`: the first entry equal to
      `target` becomes `replacement`. */
  function EditFirst(phones: seq<string>, target: string, replacement: string): seq<string>
  {
    match FirstIndex(phones, target)
    case None => phones
    case Some(i) => phones[i := replacement]
  }

  const Updated := "Phone number updated."
  const PhoneNotFound := "Phone not found."

  class Record {
    const name: string
    var phones: seq<string>
    var birthday: Option<ValidDate>

    /** A record without phones or birthday. */
    constructor (name: string)
      ensures this.name == name && phones == [] && birthday == None
    {
      this.name := name;
      phones := [];
      birthday := None;
    }

    /** `Record(name, phone)`: the phone list is `[Phone(phone)]` for a
        non-empty `phone` (which raises unless it is valid) and empty for an
        empty one; no birthday. */
    static method Create(name: string, phone: string) returns (r: Result<Record>)
      ensures r.Ok? <==> phone == "" || IsPhone(phone)
      ensures r.Err? ==> r.error == InvalidPhone
      ensures r.Ok? ==> fresh(r.value) && r.value.name == name && r.value.birthday == None
      ensures r.Ok? ==> r.value.phones == (if phone == "" then [] else [phone])
    {
      if phone == "" {
        var rec := new Record(name);
        return Ok(rec);
      }
      var checked := Validate(phone);
      if checked.Err? {
        return Err(checked.error);
      }
      var rec := new Record(name);
      rec.phones := [checked.value];
      return Ok(rec);
    }

    function Snapshot(): Contact
      reads this
    {
      Contact(name, phones, birthday)
    }

    /** `add_phone(phone)`. The duplicate test reads `phone.value`, which a
        plain string does not have (AttributeError as soon as the list is
        non-empty); the append wraps the argument in `Phone(...)` again, which
        fails for a `Phone` object because `validate` calls `isdigit` on it.
        So only a valid string added to an empty list is ever appended, and
        the record is untouched whenever an exception is raised. */
    method AddPhone(phone: PhoneArg) returns (err: Option<Failure>)
      modifies this
      ensures err.Some? ==> unchanged(this)
      ensures err.None? ==> phone.PlainString? && old(phones) == [] && IsPhone(phone.s)
      ensures err.None? ==> phones == old(phones) + [phone.s] && birthday == old(birthday)
      ensures phone.PhoneObject? ==> err == Some(if phone.value in old(phones) then DuplicatePhone else NoAttribute)
      ensures phone.PlainString? && old(phones) != [] ==> err == Some(NoAttribute)
      ensures phone.PlainString? && old(phones) == [] && !IsPhone(phone.s) ==> err == Some(InvalidPhone)
      ensures phone.PlainString? && old(phones) == [] && IsPhone(phone.s) ==> err.None?
      ensures Distinct(old(phones)) ==> Distinct(phones)
    {
      match phone
      case PhoneObject(v) =>
        if v in phones {
          return Some(DuplicatePhone);
        }
        return Some(NoAttribute);
      case PlainString(s) =>
        if phones != [] {
          return Some(NoAttribute);
        }
        var checked := Validate(s);
        if checked.Err? {
          return Some(checked.error);
        }
        phones := phones + [checked.value];
        return None;
    }

    /** `remove_phone(phone)`: keep the entries that differ from `phone`. */
    method RemovePhone(phone: string)
      modifies this
      ensures phones == Without(old(phones), phone) && birthday == old(birthday)
    {
      phones := Without(phones, phone);
    }

    /** `edit_phone(old, new)`: the loop stops at the first entry equal to
        `old` and overwrites its value; the new value is not validated. */
    method EditPhone(oldPhone: string, newPhone: string) returns (msg: string)
      modifies this
      ensures phones == EditFirst(old(phones), oldPhone, newPhone) && birthday == old(birthday)
      ensures msg == if oldPhone in old(phones) then Updated else PhoneNotFound
    {
      var i := 0;
      while i < |phones|
        invariant 0 <= i <= |phones|
        invariant forall j :: 0 <= j < i ==> phones[j] != oldPhone
      {
        if phones[i] == oldPhone {
          phones := phones[i := newPhone];
          return Updated;
        }
        i := i + 1;
      }
      return PhoneNotFound;
    }

    /** `add_birthday(text)`: the text is parsed first, so a ValueError leaves
        the previous birthday in place. */
    method AddBirthday(text: string) returns (err: Option<Failure>)
      modifies this
      ensures Parse(text).Err? ==> err == Some(BadDate) && unchanged(this)
      ensures Parse(text).Ok? ==> err.None? && birthday == Some(Parse(text).value) && phones == old(phones)
    {
      var parsed := Parse(text);
      if parsed.Err? {
        return Some(parsed.error);
      }
      birthday := Some(parsed.value);
      return None;
    }
  }

  /** `remove_phone` keeps exactly the entries different from `x`. */
  lemma {:induction false} WithoutMembers(phones: seq<string>, x: string)
    ensures forall y :: y in Without(phones, x) <==> y in phones && y != x
  {
    if phones != [] {
      WithoutMembers(phones[1..], x);
    }
  }

  /** ... and keeps them in their original order: filtering a concatenation
      filters each part. */
  lemma {:induction false} WithoutConcat(a: seq<string>, b: seq<string>, x: string)
    ensures Without(a + b, x) == Without(a, x) + Without(b, x)
  {
    if a == [] {
      assert a + b == b;
    } else {
      assert (a + b)[1..] == a[1..] + b;
      WithoutConcat(a[1..], b, x);
    }
  }

  /** The count of every value other than `x` is kept, and `x` is gone. */
  lemma {:induction false} WithoutMultiset(phones: seq<string>, x: string)
    ensures multiset(Without(phones, x)) == multiset(phones)[x := 0]
  {
    if phones != [] {
      WithoutMultiset(phones[1..], x);
      assert phones == [phones[0]] + phones[1..];
    }
  }

  /** Removing an absent number changes nothing. */
  lemma {:induction false} WithoutAbsent(phones: seq<string>, x: string)
    requires x !in phones
    ensures Without(phones, x) == phones
  {
    if phones != [] {
      WithoutAbsent(phones[1..], x);
      assert [phones[0]] + phones[1..] == phones;
    }
  }

  /** Removing twice is removing once. */
  lemma WithoutIdempotent(phones: seq<string>, x: string)
    ensures Without(Without(phones, x), x) == Without(phones, x)
  {
    WithoutMembers(phones, x);
    WithoutAbsent(Without(phones, x), x);
  }

  /** `edit_phone` never changes the number of entries, replaces exactly the
      first entry equal to the old value, and leaves every other entry alone. */
  lemma EditFirstChangesFirstMatch(phones: seq<string>, target: string, replacement: string)
    ensures |EditFirst(phones, target, replacement)| == |phones|
    ensures target !in phones ==> EditFirst(phones, target, replacement) == phones
    ensures target in phones ==>
              exists i :: (0 <= i < |phones| && phones[i] == target
                           && (forall j :: 0 <= j < i ==> phones[j] != target)
                           && EditFirst(phones, target, replacement) == phones[i := replacement])
  {
    match FirstIndex(phones, target)
    case None =>
    case Some(i) =>
      assert phones[i] == target;
  }

  /** Since `edit_phone` does not check the new value, it can make two
      entries equal, which `add_phone` never does. */
  lemma EditCanDuplicate()
    ensures !Distinct(EditFirst(["0501234567", "0679876543"], "0679876543", "0501234567"))
  {
    var r := EditFirst(["0501234567", "0679876543"], "0679876543", "0501234567");
    assert r[0] == r[1];
  }
}
