/** The upcoming-birthdays query (`AddressBook.get_birthdays_per_week`) as
    functions over the contacts in store order: the method in the Book
    module is proved to compute `BirthdaysPerWeek`. */
module Birthdays {
  import opened Outcomes
  import opened Text
  import opened Dates
  import opened Contacts

  /** The names `strftime("%A")` gives in the C locale. */
  const WeekdayNames: seq<string> :=
    ["Monday", "Tuesday", "Wednesday", "Thursday", "Friday", "Saturday", "Sunday"]

  /** One line of the result: a weekday and the names filed under it. */
  datatype Group = Group(weekday: DayOfWeek, names: seq<string>)

  /** `today <= d <= today + timedelta(days=7)`. The chained comparison only
      computes `today + 7 days` when `today <= d` holds, and that addition
      raises OverflowError when it passes 31 December 9999. */
  function InWindow(today: ValidDate, d: ValidDate): (r: Result<bool>)
    ensures r.Err? ==> r.error == DateOverflow && NotLater(today, d)
    ensures !NotLater(today, d) ==> r == Ok(false)
  {
    if !NotLater(today, d) then Ok(false)
    else
      var end := AddDays(today, 7);
      if end.year > MaxYear then Err(DateOverflow) else Ok(NotLater(d, end))
  }

  /** What one record adds while the loop runs: nothing, a (weekday, name)
      pair, or the exception that ends the query. */
  function Pick(today: ValidDate, c: Contact): Result<Option<(DayOfWeek, string)>>
  {
    match c.birthday
    case None => Ok(None)
    case Some(b) =>
      match WithYear(b, today.year)
      case Err(e) => Err(e)
      case Ok(projected) =>
        match InWindow(today, projected)
        case Err(e) => Err(e)
        case Ok(inside) => if inside then Ok(Some((Weekday(projected), c.name))) else Ok(None)
  }

  /** The outcome of each record, in store order. */
  function Picks(today: ValidDate, cs: seq<Contact>): seq<Result<Option<(DayOfWeek, string)>>>
  {
    seq(|cs|, i requires 0 <= i < |cs| => Pick(today, cs[i]))
  }

  /** What the loop gathers from a run of outcomes: the pairs in order, or
      the first exception, which ends the loop. */
  function Collect(qs: seq<Result<Option<(DayOfWeek, string)>>>): Result<seq<(DayOfWeek, string)>>
    decreases |qs|
  {
    if qs == [] then Ok([])
    else
      match Collect(qs[..|qs| - 1])
      case Err(e) => Err(e)
      case Ok(ps) =>
        match qs[|qs| - 1]
        case Err(e) => Err(e)
        case Ok(None) => Ok(ps)
        case Ok(Some(p)) => Ok(ps + [p])
  }

  /** The pairs the loop files, in store order, or the first exception. */
  function Upcoming(today: ValidDate, cs: seq<Contact>): Result<seq<(DayOfWeek, string)>>
  {
    Collect(Picks(today, cs))
  }

  /** `upcoming_birthdays[w].append(name)` on a `defaultdict(list)` viewed as
      its list of items: the group for `w` gets `name` at its end, or a new
      group is added at the end of the dictionary. */
  function Insert(gs: seq<Group>, w: DayOfWeek, name: string): seq<Group>
  {
    if gs == [] then [Group(w, [name])]
    else if gs[0].weekday == w then [gs[0].(names := gs[0].names + [name])] + gs[1..]
    else [gs[0]] + Insert(gs[1..], w, name)
  }

  /** The dictionary's items after filing every pair in order. */
  function GroupByWeekday(ps: seq<(DayOfWeek, string)>): seq<Group>
    decreases |ps|
  {
    if ps == [] then []
    else
      var p := ps[|ps| - 1];
      Insert(GroupByWeekday(ps[..|ps| - 1]), p.0, p.1)
  }

  /** The grouped answer of `get_birthdays_per_week`, or the exception it raises. */
  function BirthdaysPerWeek(today: ValidDate, cs: seq<Contact>): Result<seq<Group>>
  {
    match Upcoming(today, cs)
    case Err(e) => Err(e)
    case Ok(ps) => Ok(GroupByWeekday(ps))
  }

  /** The text returned: one line `Weekday: name, name` per group. */
  function Render(gs: seq<Group>): string
  {
    Join(seq(|gs|, i requires 0 <= i < |gs| => WeekdayNames[gs[i].weekday] + ": " + Join(gs[i].names, ", ")), "\n")
  }

  // ----- Reference definitions the query is proved against -----

  /** The birthday's day and month in today's year, as `replace(year=...)` builds it. */
  function InYear(b: Date, y: int): Date
  {
    Date(y, b.month, b.day)
  }

  /** 29 February cannot be moved to a common year. */
  predicate IsLostLeapDay(today: Date, b: Date)
  {
    b.month == 2 && b.day == 29 && !IsLeapYear(today.year)
  }

  /** `today + 7 days` lies beyond 31 December 9999. */
  predicate NearEndOfTime(today: Date)
  {
    Precedes(Date(MaxYear, 12, 24), today)
  }

  /** The birthday, moved to today's year, is one of the eight days from
      today through today + 7, counted in day numbers. */
  predicate IsDue(today: ValidDate, b: ValidDate)
  {
    var p := InYear(b, today.year);
    IsValid(p) && DayNumber(today) <= DayNumber(p) <= DayNumber(today) + 7
  }

  /** The query raises on this birthday. */
  predicate Breaks(today: ValidDate, b: ValidDate)
  {
    IsLostLeapDay(today, b)
    || (NearEndOfTime(today) && IsValid(InYear(b, today.year))
        && DayNumber(today) <= DayNumber(InYear(b, today.year)))
  }

  /** The names of the pairs filed under `w`, in order. */
  function NamesOn(ps: seq<(DayOfWeek, string)>, w: DayOfWeek): seq<string>
    decreases |ps|
  {
    if ps == [] then []
    else NamesOn(ps[..|ps| - 1], w) + (if ps[|ps| - 1].0 == w then [ps[|ps| - 1].1] else [])
  }

  /** The values of `xs` in the order each is first met. */
  function FirstOccurrences(xs: seq<DayOfWeek>): seq<DayOfWeek>
    decreases |xs|
  {
    if xs == [] then []
    else
      var done := FirstOccurrences(xs[..|xs| - 1]);
      if xs[|xs| - 1] in done then done else done + [xs[|xs| - 1]]
  }

  function Weekdays(ps: seq<(DayOfWeek, string)>): seq<DayOfWeek>
  {
    seq(|ps|, i requires 0 <= i < |ps| => ps[i].0)
  }

  function Keys(gs: seq<Group>): seq<DayOfWeek>
  {
    seq(|gs|, i requires 0 <= i < |gs| => gs[i].weekday)
  }

  // ----- Lemmas -----

  /** `today + 7 days` overflows exactly in the last week of 9999. */
  lemma OverflowNearEndOfTime(today: ValidDate)
    ensures AddDays(today, 7).year > MaxYear <==> NearEndOfTime(today)
  {
    var e := AddDays(today, 7);
    AddDaysNumber(today, 7);
    var last := Date(MaxYear, 12, 31);
    var cut := Date(MaxYear, 12, 24);
    assert DayNumber(last) == DayNumber(cut) + 7;
    assert e.year > MaxYear <==> Precedes(last, e) by {
      assert e.day <= 31;
    }
    PrecedesIffSmallerDayNumber(last, e);
    PrecedesIffSmallerDayNumber(cut, today);
  }

  /** The window test of line 76 in day numbers: it fails only by overflow,
      and otherwise it holds exactly for the eight days today .. today + 7. */
  lemma InWindowByDayNumber(today: ValidDate, d: ValidDate)
    ensures InWindow(today, d).Err? <==> DayNumber(today) <= DayNumber(d) && NearEndOfTime(today)
    ensures InWindow(today, d).Ok? ==>
              (InWindow(today, d).value <==> DayNumber(today) <= DayNumber(d) <= DayNumber(today) + 7)
  {
    var end := AddDays(today, 7);
    AddDaysNumber(today, 7);
    OverflowNearEndOfTime(today);
    PrecedesIffSmallerDayNumber(d, today);
    PrecedesIffSmallerDayNumber(end, d);
  }

  /** What one record contributes, stated without the step-by-step evaluation. */
  lemma PickMeaning(today: ValidDate, c: Contact)
    ensures Pick(today, c).Err? <==> c.birthday.Some? && Breaks(today, c.birthday.value)
    ensures Pick(today, c).Ok? && Pick(today, c).value.Some? <==>
              c.birthday.Some? && IsDue(today, c.birthday.value) && !NearEndOfTime(today)
    ensures Pick(today, c).Ok? && Pick(today, c).value.Some? ==>
              Pick(today, c).value.value == (Weekday(InYear(c.birthday.value, today.year)), c.name)
  {
    match c.birthday
    case None =>
    case Some(b) =>
      match WithYear(b, today.year)
      case Err(_) =>
      case Ok(p) =>
        InWindowByDayNumber(today, p);
  }

  /** A run of outcomes fails exactly when one of them is an exception, and
      then with the first one. */
  lemma {:induction false} CollectFailure(qs: seq<Result<Option<(DayOfWeek, string)>>>)
    ensures Collect(qs).Err? <==> exists i :: 0 <= i < |qs| && qs[i].Err?
    ensures Collect(qs).Err? ==>
              exists i :: (0 <= i < |qs| && qs[i].Err? && Collect(qs).error == qs[i].error
                           && forall j :: 0 <= j < i ==> qs[j].Ok?)
    decreases |qs|
  {
    if qs != [] {
      var init := qs[..|qs| - 1];
      CollectFailure(init);
      assert forall i :: 0 <= i < |init| ==> init[i] == qs[i];
      if Collect(init).Err? {
        var i :| 0 <= i < |init| && init[i].Err? && Collect(init).error == init[i].error
                 && forall j :: 0 <= j < i ==> init[j].Ok?;
        assert qs[i].Err?;
      } else if qs[|qs| - 1].Err? {
        assert forall j :: 0 <= j < |qs| - 1 ==> qs[j].Ok?;
      } else {
        forall i | 0 <= i < |qs| ensures qs[i].Ok? {
          if i < |qs| - 1 { assert qs[i] == init[i]; }
        }
      }
    }
  }

  /** When a run of outcomes succeeds, the pairs gathered are exactly the
      pairs among the outcomes. */
  lemma {:induction false} CollectMembers(qs: seq<Result<Option<(DayOfWeek, string)>>>)
    requires Collect(qs).Ok?
    ensures forall p :: p in Collect(qs).value <==> exists i :: 0 <= i < |qs| && qs[i] == Ok(Some(p))
    decreases |qs|
  {
    if qs != [] {
      var init := qs[..|qs| - 1];
      var last := |qs| - 1;
      CollectMembers(init);
      var ps := Collect(init).value;
      var r := Collect(qs).value;
      assert r == if qs[last].value.None? then ps else ps + [qs[last].value.value];
      forall p | p in r
        ensures exists i :: 0 <= i < |qs| && qs[i] == Ok(Some(p))
      {
        if p in ps {
          var i :| 0 <= i < |init| && init[i] == Ok(Some(p));
          assert qs[i] == init[i];
        }
      }
      forall p, i | 0 <= i < |qs| && qs[i] == Ok(Some(p))
        ensures p in r
      {
        if i < last {
          assert init[i] == qs[i];
        }
      }
    }
  }

  /** Once a prefix of the outcomes holds an exception, the whole run ends with it. */
  lemma {:induction false} CollectPrefixFailure(qs: seq<Result<Option<(DayOfWeek, string)>>>, k: nat)
    requires k <= |qs| && Collect(qs[..k]).Err?
    ensures Collect(qs) == Collect(qs[..k])
    decreases |qs| - k
  {
    if k < |qs| {
      var init := qs[..|qs| - 1];
      assert init[..k] == qs[..k];
      CollectPrefixFailure(init, k);
    } else {
      assert qs[..k] == qs;
    }
  }

  /** One more outcome after a prefix that succeeded. */
  lemma CollectStep(qs: seq<Result<Option<(DayOfWeek, string)>>>, i: nat, ps: seq<(DayOfWeek, string)>)
    requires i < |qs| && Collect(qs[..i]) == Ok(ps)
    ensures qs[i].Err? ==> Collect(qs[..i + 1]) == Err(qs[i].error)
    ensures qs[i] == Ok(None) ==> Collect(qs[..i + 1]) == Ok(ps)
    ensures qs[i].Ok? && qs[i].value.Some? ==> Collect(qs[..i + 1]) == Ok(ps + [qs[i].value.value])
  {
    assert qs[..i + 1][..i] == qs[..i];
  }

  /** The query raises exactly when some record's outcome is an exception,
      and then with the exception of the first such record in store order. */
  lemma UpcomingFailure(today: ValidDate, cs: seq<Contact>)
    ensures Upcoming(today, cs).Err? <==> exists i :: 0 <= i < |cs| && Pick(today, cs[i]).Err?
    ensures Upcoming(today, cs).Err? ==>
              exists i :: (0 <= i < |cs| && Pick(today, cs[i]).Err?
                           && Upcoming(today, cs).error == Pick(today, cs[i]).error
                           && forall j :: 0 <= j < i ==> Pick(today, cs[j]).Ok?)
  {
    var qs := Picks(today, cs);
    CollectFailure(qs);
    if Collect(qs).Err? {
      var i :| 0 <= i < |qs| && qs[i].Err? && Collect(qs).error == qs[i].error
               && forall j :: 0 <= j < i ==> qs[j].Ok?;
      assert Pick(today, cs[i]).Err?;
      forall j | 0 <= j < i ensures Pick(today, cs[j]).Ok? {
        assert qs[j].Ok?;
      }
    } else {
      forall i | 0 <= i < |cs| ensures Pick(today, cs[i]).Ok? {
        assert qs[i].Ok?;
      }
    }
  }

  /** When the query succeeds, the pairs it files are exactly the pairs the
      records contribute. */
  lemma UpcomingMembers(today: ValidDate, cs: seq<Contact>)
    requires Upcoming(today, cs).Ok?
    ensures forall p :: p in Upcoming(today, cs).value <==>
              exists i :: 0 <= i < |cs| && Pick(today, cs[i]) == Ok(Some(p))
  {
    var qs := Picks(today, cs);
    CollectMembers(qs);
    forall p ensures p in Collect(qs).value <==> exists i :: 0 <= i < |cs| && Pick(today, cs[i]) == Ok(Some(p)) {
      if p in Collect(qs).value {
        var i :| 0 <= i < |qs| && qs[i] == Ok(Some(p));
        assert Pick(today, cs[i]) == Ok(Some(p));
      }
      if exists i :: 0 <= i < |cs| && Pick(today, cs[i]) == Ok(Some(p)) {
        var i :| 0 <= i < |cs| && Pick(today, cs[i]) == Ok(Some(p));
        assert qs[i] == Ok(Some(p));
      }
    }
  }

  /** Filing a pair into groups whose weekdays are distinct: the group for
      `w` (if any) gets `name` at its end and no other group changes, or a
      new group is added last. */
  lemma {:induction false} InsertEffect(gs: seq<Group>, w: DayOfWeek, name: string)
    requires Distinct(Keys(gs))
    ensures w in Keys(gs) ==>
              |Insert(gs, w, name)| == |gs|
              && forall i :: 0 <= i < |gs| ==>
                   Insert(gs, w, name)[i] == (if gs[i].weekday == w then Group(w, gs[i].names + [name]) else gs[i])
    ensures w !in Keys(gs) ==> Insert(gs, w, name) == gs + [Group(w, [name])]
    decreases |gs|
  {
    if gs != [] {
      assert Keys(gs[1..]) == Keys(gs)[1..];
      assert Keys(gs) == [gs[0].weekday] + Keys(gs[1..]);
      InsertEffect(gs[1..], w, name);
      if gs[0].weekday == w {
        forall i | 1 <= i < |gs| ensures gs[i].weekday != w {
          assert Keys(gs)[0] != Keys(gs)[i];
        }
      }
    }
  }

  /** First occurrences are distinct and are exactly the values met. */
  lemma {:induction false} FirstOccurrencesMeaning(xs: seq<DayOfWeek>)
    ensures Distinct(FirstOccurrences(xs))
    ensures forall x :: x in FirstOccurrences(xs) <==> x in xs
    decreases |xs|
  {
    if xs != [] {
      var init := xs[..|xs| - 1];
      FirstOccurrencesMeaning(init);
      assert xs == init + [xs[|xs| - 1]];
    }
  }

  /** No pair filed under `w`, no names under `w`. */
  lemma {:induction false} NamesOnAbsent(ps: seq<(DayOfWeek, string)>, w: DayOfWeek)
    requires w !in Weekdays(ps)
    ensures NamesOn(ps, w) == []
    decreases |ps|
  {
    if ps != [] {
      var init := ps[..|ps| - 1];
      assert Weekdays(init) == Weekdays(ps)[..|ps| - 1];
      assert Weekdays(ps)[|ps| - 1] == ps[|ps| - 1].0;
      NamesOnAbsent(init, w);
    }
  }

  /** The shape of the answer: the weekday groups come in the order their
      weekdays are first met in store order, and each group lists the names
      filed under its weekday, in store order. */
  lemma {:induction false} GroupsMeaning(ps: seq<(DayOfWeek, string)>)
    ensures Keys(GroupByWeekday(ps)) == FirstOccurrences(Weekdays(ps))
    ensures forall i :: 0 <= i < |GroupByWeekday(ps)| ==>
              GroupByWeekday(ps)[i].names == NamesOn(ps, GroupByWeekday(ps)[i].weekday)
    decreases |ps|
  {
    if ps != [] {
      var init := ps[..|ps| - 1];
      var p := ps[|ps| - 1];
      GroupsMeaning(init);
      var gs := GroupByWeekday(init);
      assert Weekdays(init) == Weekdays(ps)[..|ps| - 1];
      assert Weekdays(ps) == Weekdays(init) + [p.0];
      FirstOccurrencesMeaning(Weekdays(init));
      InsertEffect(gs, p.0, p.1);
      var r := GroupByWeekday(ps);
      assert r == Insert(gs, p.0, p.1);
      if p.0 in Keys(gs) {
        assert Keys(r) == Keys(gs);
      } else {
        assert Keys(r) == Keys(gs) + [p.0];
        NamesOnAbsent(init, p.0);
        forall i | 0 <= i < |r|
          ensures r[i].names == NamesOn(ps, r[i].weekday)
        {
          if i < |gs| {
            assert Keys(gs)[i] == gs[i].weekday;
            assert r[i] == gs[i] && gs[i].weekday != p.0;
          }
        }
      }
    }
  }

  /** A name listed in the answer belongs to a record whose birthday is due,
      and the group it is listed in is the weekday of that birthday in
      today's year. */
  lemma ListedIsDue(today: ValidDate, cs: seq<Contact>, g: Group, name: string)
    requires BirthdaysPerWeek(today, cs).Ok? && g in BirthdaysPerWeek(today, cs).value && name in g.names
    ensures exists c :: c in cs && c.name == name && c.birthday.Some? && IsDue(today, c.birthday.value)
                        && g.weekday == Weekday(InYear(c.birthday.value, today.year))
  {
    var ps := Upcoming(today, cs).value;
    var gs := GroupByWeekday(ps);
    GroupsMeaning(ps);
    var k :| 0 <= k < |gs| && gs[k] == g;
    assert name in NamesOn(ps, g.weekday);
    NamesOnSource(ps, g.weekday, name);
    UpcomingMembers(today, cs);
    var i :| 0 <= i < |cs| && Pick(today, cs[i]) == Ok(Some((g.weekday, name)));
    PickMeaning(today, cs[i]);
    assert cs[i] in cs;
  }

  /** A record whose birthday is due has its name listed, under the weekday
      of the birthday in today's year. */
  lemma DueIsListed(today: ValidDate, cs: seq<Contact>, c: Contact)
    requires BirthdaysPerWeek(today, cs).Ok? && c in cs && c.birthday.Some? && IsDue(today, c.birthday.value)
    ensures exists g :: g in BirthdaysPerWeek(today, cs).value && c.name in g.names
                        && g.weekday == Weekday(InYear(c.birthday.value, today.year))
  {
    var ps := Upcoming(today, cs).value;
    var gs := GroupByWeekday(ps);
    var i :| 0 <= i < |cs| && cs[i] == c;
    UpcomingFailure(today, cs);
    assert Pick(today, cs[i]).Ok?;
    PickMeaning(today, c);
    var p := Pick(today, c).value.value;
    UpcomingMembers(today, cs);
    assert p in ps;
    NamesOnContains(ps, p);
    var j :| 0 <= j < |ps| && ps[j] == p;
    assert Weekdays(ps)[j] == p.0;
    GroupsMeaning(ps);
    FirstOccurrencesMeaning(Weekdays(ps));
    assert p.0 in Keys(gs);
    var k :| 0 <= k < |gs| && Keys(gs)[k] == p.0;
    assert gs[k].names == NamesOn(ps, p.0) && gs[k].weekday == p.0;
    assert gs[k] in gs;
  }

  /** A name appears in the answer exactly when some record with that name
      has a birthday due within the week (and nothing raised). */
  lemma NamesIncluded(today: ValidDate, cs: seq<Contact>, name: string)
    requires BirthdaysPerWeek(today, cs).Ok?
    ensures (exists g :: g in BirthdaysPerWeek(today, cs).value && name in g.names) <==>
              exists c :: c in cs && c.name == name && c.birthday.Some? && IsDue(today, c.birthday.value)
  {
    if exists g :: g in BirthdaysPerWeek(today, cs).value && name in g.names {
      var g :| g in BirthdaysPerWeek(today, cs).value && name in g.names;
      ListedIsDue(today, cs, g, name);
    }
    if exists c :: c in cs && c.name == name && c.birthday.Some? && IsDue(today, c.birthday.value) {
      var c :| c in cs && c.name == name && c.birthday.Some? && IsDue(today, c.birthday.value);
      DueIsListed(today, cs, c);
    }
  }

  /** The group of weekday `w` lists a name exactly when some record with
      that name has a birthday due within the week that falls on `w` in
      today's year. */
  lemma ListedUnder(today: ValidDate, cs: seq<Contact>, w: DayOfWeek, name: string)
    requires BirthdaysPerWeek(today, cs).Ok?
    ensures (exists g :: g in BirthdaysPerWeek(today, cs).value && g.weekday == w && name in g.names) <==>
              exists c :: c in cs && c.name == name && c.birthday.Some? && IsDue(today, c.birthday.value)
                          && Weekday(InYear(c.birthday.value, today.year)) == w
  {
    if exists g :: g in BirthdaysPerWeek(today, cs).value && g.weekday == w && name in g.names {
      var g :| g in BirthdaysPerWeek(today, cs).value && g.weekday == w && name in g.names;
      ListedIsDue(today, cs, g, name);
    }
    if exists c :: c in cs && c.name == name && c.birthday.Some? && IsDue(today, c.birthday.value)
                   && Weekday(InYear(c.birthday.value, today.year)) == w {
      var c :| c in cs && c.name == name && c.birthday.Some? && IsDue(today, c.birthday.value)
               && Weekday(InYear(c.birthday.value, today.year)) == w;
      DueIsListed(today, cs, c);
    }
  }

  /** A name listed under `w` comes from a pair (w, name). */
  lemma {:induction false} NamesOnSource(ps: seq<(DayOfWeek, string)>, w: DayOfWeek, name: string)
    requires name in NamesOn(ps, w)
    ensures (w, name) in ps
    decreases |ps|
  {
    var init := ps[..|ps| - 1];
    if name !in NamesOn(init, w) {
      assert ps[|ps| - 1] == (w, name);
    } else {
      NamesOnSource(init, w, name);
      assert forall q :: q in init ==> q in ps;
    }
  }

  /** Every pair's name is listed under its weekday. */
  lemma {:induction false} NamesOnContains(ps: seq<(DayOfWeek, string)>, p: (DayOfWeek, string))
    requires p in ps
    ensures p.1 in NamesOn(ps, p.0)
    decreases |ps|
  {
    var init := ps[..|ps| - 1];
    if p != ps[|ps| - 1] {
      assert p in init;
      NamesOnContains(init, p);
    }
  }

  /** The query raises exactly when some record's birthday breaks it. */
  lemma QueryFails(today: ValidDate, cs: seq<Contact>)
    ensures BirthdaysPerWeek(today, cs).Err? <==>
              exists c :: c in cs && c.birthday.Some? && Breaks(today, c.birthday.value)
  {
    UpcomingFailure(today, cs);
    if exists c :: c in cs && c.birthday.Some? && Breaks(today, c.birthday.value) {
      var c :| c in cs && c.birthday.Some? && Breaks(today, c.birthday.value);
      PickMeaning(today, c);
    }
    if BirthdaysPerWeek(today, cs).Err? {
      var i :| 0 <= i < |cs| && Pick(today, cs[i]).Err?;
      PickMeaning(today, cs[i]);
      assert cs[i] in cs;
    }
  }

  // ----- Worked cases -----

  /** A week after Monday 10 June 2024 is Monday 17 June. */
  lemma MidJuneWeekEnd()
    ensures AddDays(Date(2024, 6, 10), 7) == Date(2024, 6, 17)
  {
    assert AddDays(Date(2024, 6, 16), 1) == Date(2024, 6, 17);
    assert AddDays(Date(2024, 6, 14), 3) == Date(2024, 6, 17);
    assert AddDays(Date(2024, 6, 12), 5) == Date(2024, 6, 17);
  }

  /** 12 June 2024 is a Wednesday. */
  lemma MidJuneWeekday()
    ensures Weekday(Date(2024, 6, 12)) == 2
  {
    assert DaysBeforeYear(2024) == 738885;
    assert DayNumber(Date(2024, 6, 12)) == 739049;
  }

  /** On Monday 10 June 2024 a birthday on 12 June is filed under Wednesday
      and one on 20 June is not. */
  lemma MidJunePicks()
    ensures Pick(Date(2024, 6, 10), Contact("Alice", [], Some(Date(1990, 6, 12)))) == Ok(Some((2, "Alice")))
    ensures Pick(Date(2024, 6, 10), Contact("Bob", [], Some(Date(1990, 6, 20)))) == Ok(None)
  {
    MidJuneWeekEnd();
    MidJuneWeekday();
    assert WithYear(Date(1990, 6, 12), 2024) == Ok(Date(2024, 6, 12));
    assert WithYear(Date(1990, 6, 20), 2024) == Ok(Date(2024, 6, 20));
    assert InWindow(Date(2024, 6, 10), Date(2024, 6, 12)) == Ok(true);
    assert InWindow(Date(2024, 6, 10), Date(2024, 6, 20)) == Ok(false);
  }

  /** The text of the one-group answer. */
  lemma MidJuneText()
    ensures Render([Group(2, ["Alice"])]) == "Wednesday: Alice"
  {
    var gs := [Group(2, ["Alice"])];
    assert Join(["Alice"], ", ") == "Alice";
    assert WeekdayNames[2] + ": " + "Alice" == "Wednesday: Alice";
    var lines := seq(|gs|, i requires 0 <= i < |gs| => WeekdayNames[gs[i].weekday] + ": " + Join(gs[i].names, ", "));
    assert lines == ["Wednesday: Alice"];
  }

  /** A kept pair followed by a skipped record gathers just that pair. */
  lemma CollectOneThenNone(qs: seq<Result<Option<(DayOfWeek, string)>>>, p: (DayOfWeek, string))
    requires |qs| == 2 && qs[0] == Ok(Some(p)) && qs[1] == Ok(None)
    ensures Collect(qs) == Ok([p])
  {
    var none: seq<(DayOfWeek, string)> := [];
    assert none + [p] == [p];
    assert qs[..0] == qs[..1][..0];
    assert qs[..2][..1] == qs[..1] && qs[..2] == qs;
    CollectStep(qs, 0, none);
    CollectStep(qs, 1, [p]);
  }

  /** Two records of which only the first is due give one group. */
  lemma FirstOfTwoDue(today: ValidDate, a: Contact, b: Contact, p: (DayOfWeek, string))
    requires Pick(today, a) == Ok(Some(p)) && Pick(today, b) == Ok(None)
    ensures BirthdaysPerWeek(today, [a, b]) == Ok([Group(p.0, [p.1])])
  {
    var qs := Picks(today, [a, b]);
    assert qs[0] == Pick(today, a) && qs[1] == Pick(today, b);
    CollectOneThenNone(qs, p);
    assert [p][..0] == [];
    assert GroupByWeekday([p]) == Insert([], p.0, p.1);
  }

  /** The answer on Monday 10 June 2024 for those two records, and its text. */
  lemma MidJuneWeek()
    ensures BirthdaysPerWeek(Date(2024, 6, 10), [
              Contact("Alice", [], Some(Date(1990, 6, 12))),
              Contact("Bob", [], Some(Date(1990, 6, 20)))])
            == Ok([Group(2, ["Alice"])])
    ensures Render([Group(2, ["Alice"])]) == "Wednesday: Alice"
  {
    MidJunePicks();
    MidJuneText();
    FirstOfTwoDue(Date(2024, 6, 10), Contact("Alice", [], Some(Date(1990, 6, 12))),
                  Contact("Bob", [], Some(Date(1990, 6, 20))), (2, "Alice"));
  }

  /** The projection does not wrap into the next year: on 28 December a
      1 January birthday, four days ahead, is not listed. */
  lemma NoYearWrap()
    ensures DayNumber(Date(2025, 1, 1)) == DayNumber(Date(2024, 12, 28)) + 4
    ensures BirthdaysPerWeek(Date(2024, 12, 28), [Contact("Carol", [], Some(Date(1990, 1, 1)))]) == Ok([])
  {
    var c := Contact("Carol", [], Some(Date(1990, 1, 1)));
    assert Pick(Date(2024, 12, 28), c) == Ok(None);
    var qs := Picks(Date(2024, 12, 28), [c]);
    var none: seq<(DayOfWeek, string)> := [];
    assert qs[..1] == qs && |qs[..0]| == 0;
    CollectStep(qs, 0, none);
  }

  /** A 29 February birthday makes the whole query raise in a common year. */
  lemma LeapDayBreaksQuery()
    ensures BirthdaysPerWeek(Date(2023, 3, 1), [
              Contact("Dan", [], None),
              Contact("Eve", [], Some(Date(2000, 2, 29)))]) == Err(NoSuchDay)
  {
    var dan := Contact("Dan", [], None);
    var eve := Contact("Eve", [], Some(Date(2000, 2, 29)));
    assert Pick(Date(2023, 3, 1), eve) == Err(NoSuchDay);
    assert Pick(Date(2023, 3, 1), dan) == Ok(None);
    var qs := Picks(Date(2023, 3, 1), [dan, eve]);
    var none: seq<(DayOfWeek, string)> := [];
    assert qs[..2] == qs && qs[..1][..0] == qs[..0] && qs[..2][..1] == qs[..1];
    CollectStep(qs, 0, none);
    CollectStep(qs, 1, none);
  }
}
