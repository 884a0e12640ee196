/** The address book (`AddressBook`): a dictionary from name to record that
    keeps its insertion order, and the queries over it. */
module Book {
  import opened Outcomes
  import opened Text
  import opened Dates
  import opened Contacts
  import opened Birthdays

  /** The records named by `names`, in that order, as values. */
  function ContactsOf(names: seq<string>, records: map<string, Record>): (cs: seq<Contact>)
    reads records.Values
    requires forall n :: n in names ==> n in records
    ensures |cs| == |names|
    ensures forall i {:trigger cs[i]} :: 0 <= i < |names| ==> cs[i] == records[names[i]].Snapshot()
  {
    if names == [] then [] else [records[names[0]].Snapshot()] + ContactsOf(names[1..], records)
  }

  /** The first contact called `name`. */
  function Lookup(cs: seq<Contact>, name: string): Option<Contact>
  {
    if cs == [] then None
    else if cs[0].name == name then Some(cs[0])
    else Lookup(cs[1..], name)
  }

  const NoPhone := "No phone number."

  /** `phones[0].value if phones else 'No phone number.'` */
  function FirstPhoneOr(phones: seq<string>): string
  {
    if phones != [] then phones[0] else NoPhone
  }

  /** A record under a name not listed yet adds its contact at the end. */
  lemma ContactsOfAppend(names: seq<string>, records: map<string, Record>, r: Record)
    requires forall n :: n in names ==> n in records
    requires r.name !in names
    ensures ContactsOf(names + [r.name], records[r.name := r]) == ContactsOf(names, records) + [r.Snapshot()]
  {
    var now, before := ContactsOf(names + [r.name], records[r.name := r]), ContactsOf(names, records);
    forall i | 0 <= i < |names| ensures now[i] == before[i] {
      assert (names + [r.name])[i] == names[i] != r.name;
    }
    assert now[|names|] == r.Snapshot();
  }

  /** Looking a name up among the records of a dictionary whose keys are
      the records' names finds that key's record. */
  lemma {:induction false} LookupContactsOf(names: seq<string>, records: map<string, Record>, name: string)
    requires forall n :: n in names ==> n in records && records[n].name == n
    ensures Lookup(ContactsOf(names, records), name) ==
              if name in names then Some(records[name].Snapshot()) else None
  {
    if names != [] {
      LookupContactsOf(names[1..], records, name);
      assert ContactsOf(names, records)[1..] == ContactsOf(names[1..], records);
      assert names == [names[0]] + names[1..];
    }
  }

  /** The keys of a `defaultdict(list)` in insertion order, with their lists. */
  function ToGroups(keys: seq<DayOfWeek>, buckets: map<DayOfWeek, seq<string>>): seq<Group>
    requires forall k :: k in keys ==> k in buckets
  {
    seq(|keys|, i requires 0 <= i < |keys| => Group(keys[i], buckets[keys[i]]))
  }

  /** Appending to a list that is already in the dictionary. */
  lemma FileUnderPresentKey(keys: seq<DayOfWeek>, buckets: map<DayOfWeek, seq<string>>, w: DayOfWeek, name: string)
    requires Distinct(keys) && (forall k :: k in buckets <==> k in keys) && w in buckets
    ensures ToGroups(keys, buckets[w := buckets[w] + [name]]) == Insert(ToGroups(keys, buckets), w, name)
  {
    var gs := ToGroups(keys, buckets);
    assert Keys(gs) == keys;
    InsertEffect(gs, w, name);
  }

  /** Creating the list of a weekday not met before. */
  lemma FileUnderNewKey(keys: seq<DayOfWeek>, buckets: map<DayOfWeek, seq<string>>, w: DayOfWeek, name: string)
    requires Distinct(keys) && (forall k :: k in buckets <==> k in keys) && w !in buckets
    ensures ToGroups(keys + [w], buckets[w := [name]]) == Insert(ToGroups(keys, buckets), w, name)
  {
    var gs := ToGroups(keys, buckets);
    assert Keys(gs) == keys;
    InsertEffect(gs, w, name);
  }

  /** `upcoming_birthdays[w].append(name)` on a `defaultdict(list)` held as
      its keys in insertion order and its lists: a missing key first gets an
      empty list at the end. */
  method Append(keys: seq<DayOfWeek>, buckets: map<DayOfWeek, seq<string>>, w: DayOfWeek, name: string,
                ghost ps: seq<(DayOfWeek, string)>)
    returns (keys': seq<DayOfWeek>, buckets': map<DayOfWeek, seq<string>>)
    requires Distinct(keys) && (forall k :: k in buckets <==> k in keys)
    requires ToGroups(keys, buckets) == GroupByWeekday(ps)
    ensures Distinct(keys') && (forall k :: k in buckets' <==> k in keys')
    ensures ToGroups(keys', buckets') == Insert(ToGroups(keys, buckets), w, name)
    ensures ToGroups(keys', buckets') == GroupByWeekday(ps + [(w, name)])
  {
    GroupByWeekdayStep(ps, (w, name));
    if w in buckets {
      FileUnderPresentKey(keys, buckets, w, name);
      keys', buckets' := keys, buckets[w := buckets[w] + [name]];
    } else {
      FileUnderNewKey(keys, buckets, w, name);
      keys', buckets' := keys + [w], buckets[w := [name]];
    }
  }

  class AddressBook {
    /** The keys of `_records` in insertion order. */
    var order: seq<string>
    /** `_records`. */
    var records: map<string, Record>

    /** Every key is listed once, and every record is stored under its own name. */
    ghost predicate Valid()
      reads this
    {
      Distinct(order)
      && (forall n :: n in records <==> n in order)
      && (forall n :: n in records ==> records[n].name == n)
    }

    constructor ()
      ensures Valid() && order == [] && records == map[]
    {
      order := [];
      records := map[];
    }

    /** The records in insertion order, as values. */
    function Snapshot(): seq<Contact>
      reads this, records.Values
      requires Valid()
    {
      ContactsOf(order, records)
    }

    /** `add_record(record)`: `_records[record.name] = record`. A new name goes
        to the end of the order; an existing name keeps its place and gets the
        new record. */
    method AddRecord(record: Record)
      requires Valid()
      modifies this
      ensures Valid()
      ensures records == old(records)[record.name := record]
      ensures order == if record.name in old(records) then old(order) else old(order) + [record.name]
      ensures record.name !in old(records) ==> Snapshot() == old(Snapshot()) + [record.Snapshot()]
      ensures record.name in old(records) ==>
                |Snapshot()| == |old(Snapshot())|
                && forall i :: 0 <= i < |order| ==>
                     Snapshot()[i] == if order[i] == record.name then record.Snapshot() else old(Snapshot())[i]
    {
      if record.name !in records {
        ContactsOfAppend(order, records, record);
        order := order + [record.name];
      }
      records := records[record.name := record];
    }

    /** `get_record(name)`: the record stored under `name`, or None. */
    function GetRecord(name: string): (r: Option<Record>)
      reads this, records.Values
      requires Valid()
      ensures r.Some? <==> Lookup(Snapshot(), name).Some?
      ensures r.Some? ==> r.value in records.Values && r.value.name == name
      ensures r.Some? ==> Lookup(Snapshot(), name) == Some(r.value.Snapshot())
    {
      LookupContactsOf(order, records, name);
      if name in records then Some(records[name]) else None
    }

    /** The lines of `get_all_contacts`: one per record in insertion order,
        `name: first phone`, or `name: No phone number.` without phones. */
    function AllContactLines(): (lines: seq<string>)
      reads this, records.Values
      requires Valid()
      ensures |lines| == |order|
      ensures forall i :: 0 <= i < |order| ==>
                lines[i] == order[i] + ": " + FirstPhoneOr(records[order[i]].phones)
    {
      var cs := Snapshot();
      seq(|cs|, i requires 0 <= i < |cs| => cs[i].name + ": " + FirstPhoneOr(cs[i].phones))
    }

    /** `get_all_contacts()`. */
    function GetAllContacts(): string
      reads this, records.Values
      requires Valid()
    {
      Join(AllContactLines(), "\n")
    }

    /** `get_birthdays_per_week()`, with the current date as a parameter: the
        loop over the records fills a `defaultdict(list)` (its keys in
        insertion order and its lists), and the first exception ends the
        query. */
    method GetBirthdaysPerWeek(today: ValidDate) returns (r: Result<string>)
      requires Valid()
      ensures r == match BirthdaysPerWeek(today, Snapshot())
                   case Ok(gs) => Ok(Render(gs))
                   case Err(e) => Err(e)
    {
      ghost var cs := Snapshot();
      ghost var qs := Picks(today, cs);
      ghost var ps: seq<(DayOfWeek, string)> := [];
      var keys: seq<DayOfWeek> := [];
      var buckets: map<DayOfWeek, seq<string>> := map[];
      var i := 0;
      while i < |order|
        invariant 0 <= i <= |order|
        invariant Distinct(keys) && (forall k :: k in buckets <==> k in keys)
        invariant Collect(qs[..i]) == Ok(ps)
        invariant ToGroups(keys, buckets) == GroupByWeekday(ps)
      {
        var record := records[order[i]];
        assert cs[i] == record.Snapshot();
        var pick := Pick(today, record.Snapshot());
        assert qs[i] == pick;
        CollectStep(qs, i, ps);
        if pick.Err? {
          FailureEndsQuery(today, cs, i, ps);
          return Err(pick.error);
        }
        if pick.value.Some? {
          var p := pick.value.value;
          keys, buckets := Append(keys, buckets, p.0, p.1, ps);
          ps := ps + [p];
        }
        i := i + 1;
      }
      assert qs[..i] == qs;
      assert Snapshot() == cs;
      assert BirthdaysPerWeek(today, cs) == Ok(GroupByWeekday(ps));
      return Ok(Render(ToGroups(keys, buckets)));
    }
  }

  /** An exception from one record, after a prefix that succeeded, is the
      answer of the whole query. */
  lemma FailureEndsQuery(today: ValidDate, cs: seq<Contact>, i: nat, ps: seq<(DayOfWeek, string)>)
    requires i < |cs| && Collect(Picks(today, cs)[..i]) == Ok(ps) && Pick(today, cs[i]).Err?
    ensures BirthdaysPerWeek(today, cs) == Err(Pick(today, cs[i]).error)
  {
    var qs := Picks(today, cs);
    CollectStep(qs, i, ps);
    CollectPrefixFailure(qs, i + 1);
  }

  /** Filing one more pair. */
  lemma GroupByWeekdayStep(ps: seq<(DayOfWeek, string)>, p: (DayOfWeek, string))
    ensures GroupByWeekday(ps + [p]) == Insert(GroupByWeekday(ps), p.0, p.1)
  {
    assert (ps + [p])[..|ps|] == ps;
  }
}
