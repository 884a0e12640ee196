# Address book assistant: a Dafny model

`DZ-3-100324.py` is a command-line assistant that keeps contacts in memory.
Each contact has a name, a list of ten-digit phone numbers and an optional
birthday, and the book answers which birthdays fall within the coming week.
This project models its core and proves what that core does:

- **Phones** (`phones.dfy`): `Phone.validate`, which accepts exactly ten ASCII digits.
- **Birthday text** (`date_text.dfy`): parsing `DD.MM.YYYY` as `strptime` does and
  formatting as `strftime` does. The texts the parser accepts are characterized
  exactly: one- or two-digit day and month, a four-digit year, dots between
  them, and a date that exists. Both directions of the round trip are proved.
- **Calendar** (`dates.dfy`): proleptic Gregorian dates on integers, with the
  day numbers of Python's `toordinal()` and the weekdays of `weekday()`.
  It proves that date order is day-number order, that adding n days adds n
  to the day number, and when `replace(year=...)` fails.
- **Record** (`contacts.dfy`): a class whose methods change `phones` and
  `birthday` in place: `add_phone`, `remove_phone`, `edit_phone` (a loop)
  and `add_birthday`.
- **AddressBook** (`book.dfy`): a class holding `_records` as a map plus
  its key order, since a Python dict keeps insertion order. It models
  `add_record`, `get_record` and `get_all_contacts`. `get_birthdays_per_week`
  is a method whose loop fills a `defaultdict(list)`, kept as its key order
  and its lists, and which is proved to compute the reference function
  `BirthdaysPerWeek`.
- **Birthday query** (`birthdays.dfy`): that reference function and what is
  proved about it:
  - a name is listed exactly when its birthday, moved to today's year,
    falls on one of the days today .. today + 7;
  - weekday groups come in first-met order, and names keep store order;
  - the query raises exactly when some contact has a 29 February birthday
    and today's year is a common year, or when `today + 7 days` passes
    31 December 9999 and some contact's birthday, moved to today's year,
    is not before today. Only then does the chained comparison compute
    `today + 7 days`.
- **Commands** (`commands.dfy`): the handlers `add`, `add-birthday`,
  `phone`, `show-birthday` and `edit`. The reply is one of three things:
  - a string the handler returns (`Says`);
  - an exception that was caught and whose text `str(e)` is returned
    (`Caught`), either by the handler's own `except ValueError` (the
    invalid or duplicate phone of `add` on a known name) or by `input_error`;
  - an exception that escapes (`Raised`).

The model follows the code as written where it differs from what the code
evidently intends:

- `add` on a name that already exists never adds a phone. The handler passes
  an already built `Phone` to `add_phone`, which either reports the duplicate
  or fails when it wraps the object in `Phone(...)` a second time. The
  handler's own success reply at line 96, "Phone number added to the existing
  contact.", shows the phone was meant to be added.
- `edit` on a known contact calls `edit_phone` with one argument, although
  `edit_phone(self, old_phone, new_phone)` at line 44 takes two. The
  resulting TypeError is not caught, so the command never updates anything.
- The birthday window does not wrap into the next year. A 29 February
  birthday makes the whole query raise in a common year, so no other
  birthday is reported either.

Some methods build a fresh book and run the commands one after another
(`DuplicatePhoneSession`, `SecondPhoneSession`, `BirthdaySession`,
`EditSession`). Their contracts state what such a sequence of inputs returns.

## Model

| member | source | states |
|---|---|---|
| Phones.IsDigitText | DZ-3-100324.py:17 | `isdigit()` holds exactly for non-empty text of digits only |
| Phones.Validate | DZ-3-100324.py:11-18 | a phone is accepted iff it has exactly 10 digits; otherwise the result is the InvalidPhone error; an accepted value is kept unchanged |
| Contacts.FirstIndex | DZ-3-100324.py:45-46 | the index found is that of the first entry equal to the target; there is none iff the target is absent |
| Contacts.Record.constructor | DZ-3-100324.py:31-34 | a new record has its name, no phones and no birthday |
| Contacts.Record.Create | DZ-3-100324.py:31-34 | `Record(name, phone)` succeeds iff the phone is empty or valid; the record's phones are `[phone]`, or `[]` for an empty phone |
| Contacts.Record.AddPhone | DZ-3-100324.py:36-39 | on any exception the record is unchanged; a duplicate Phone object gives the duplicate error; a non-duplicate Phone object or any string on a non-empty list gives an attribute error; a valid string on an empty list is appended, and that is the only case that appends; distinct phones stay distinct |
| Contacts.Record.RemovePhone | DZ-3-100324.py:41-42 | the phones become the filtered list and the birthday is unchanged |
| Contacts.Without | DZ-3-100324.py:42 | the comprehension `[p for p in phones if p.value != x]`: the entries different from `x`, in order; never longer than the list |
| Contacts.WithoutMembers | DZ-3-100324.py:42 | the remaining entries are exactly the old entries that differ from the argument |
| Contacts.WithoutConcat | DZ-3-100324.py:42 | filtering keeps the original order: the filter of a concatenation is the concatenation of the filters |
| Contacts.WithoutMultiset | DZ-3-100324.py:42 | every other value keeps its count; the removed value is gone |
| Contacts.WithoutAbsent | DZ-3-100324.py:42 | removing an absent number changes nothing |
| Contacts.WithoutIdempotent | DZ-3-100324.py:42 | removing twice is removing once |
| Contacts.Record.EditPhone | DZ-3-100324.py:44-49 | the loop replaces the first entry equal to the old value; "Phone number updated." iff there was one, else "Phone not found."; the birthday is unchanged |
| Contacts.EditFirst | DZ-3-100324.py:44-49 | the phone list after the loop: the entry at the first index equal to the old value becomes the new value; no match, no change |
| Contacts.EditFirstChangesFirstMatch | DZ-3-100324.py:44-49 | the length never changes; with no match the list is unchanged; otherwise exactly the first match is replaced |
| Contacts.EditCanDuplicate | DZ-3-100324.py:47 | the new value is not checked, so an edit can make two phones equal |
| Contacts.Record.AddBirthday | DZ-3-100324.py:52-53 | unparsable text gives BadDate and leaves the record unchanged; otherwise the birthday becomes the parsed date and the phones are kept |
| DateText.DigitChar | DZ-3-100324.py:139 | the character written for a digit reads back as that digit |
| DateText.SplitAt | DZ-3-100324.py:23 | splitting at the separator gives at least one part |
| DateText.Parse | DZ-3-100324.py:21-23 | every parse failure is the same BadDate error, and a parsed date is always a valid date; which texts it accepts is stated by `ParseAcceptsExactly` |
| DateText.JoinSplit | DZ-3-100324.py:23 | joining the parts of a split with the separator gives the text back |
| DateText.ParseFields | DZ-3-100324.py:23 | a text `dd.mm.yyyy` with a day and a month of one or two digits and a four-digit year parses to the date its fields spell when that date exists, and is rejected otherwise |
| DateText.ParsedFields | DZ-3-100324.py:23 | every text that parses has that `dd.mm.yyyy` shape, and its date is the one its fields spell |
| DateText.ParseAcceptsExactly | DZ-3-100324.py:23 | `strptime(s, '%d.%m.%Y')` succeeds iff `s` is day, month and year fields of those lengths, separated by dots, naming a date that exists |
| DateText.ParseUnpadded | DZ-3-100324.py:23 | `5.6.2024` is accepted as 5 June 2024 |
| DateText.ParseRejectsWord | DZ-3-100324.py:23 | `hello` is rejected |
| DateText.ParseRejectsDashes | DZ-3-100324.py:23 | `2024-06-10` is rejected |
| DateText.ParseRejectsShortYear | DZ-3-100324.py:23 | `01.01.99`, with a two-digit year, is rejected |
| DateText.Pad2 | DZ-3-100324.py:139 | a number below 100 is written as two digits that read back as that number |
| DateText.Pad4 | DZ-3-100324.py:139 | a number below 10000 is written as four digits that read back as that number |
| DateText.NumberValueOfFour | DZ-3-100324.py:139 | the value of four digits is the first two times 100 plus the last two |
| DateText.Format | DZ-3-100324.py:139 | the output is always in the zero-padded form `DD.MM.YYYY` |
| DateText.SplitWithoutSeparator | DZ-3-100324.py:23 | text without a dot is one part |
| DateText.SplitAfterSeparator | DZ-3-100324.py:23 | the text before the first dot is the first part |
| DateText.NumberValueInjective | DZ-3-100324.py:23 | digit strings of the same length and value are equal |
| DateText.SplitCanonical | DZ-3-100324.py:23 | a zero-padded date text splits into its day, month and year fields |
| DateText.ParseFormat | DZ-3-100324.py:23 | parsing a formatted date gives the date back |
| DateText.FormatParse | DZ-3-100324.py:139 | a zero-padded text that parses is formatted back to the very same text |
| Dates.DaysInMonth | DZ-3-100324.py:23 | every month has 28 to 31 days |
| Dates.CenturyOfFourHundred | DZ-3-100324.py:76 | leap-year helper for the day count behind `today + timedelta(days=7)`: a year divisible by 400 is divisible by 100 |
| Dates.FourOfCentury | DZ-3-100324.py:76 | leap-year helper for the day count behind `today + timedelta(days=7)`: a year divisible by 100 is divisible by 4 |
| Dates.DayNumber | DZ-3-100324.py:76 | `toordinal()`: the days before the year (365 per year plus the Gregorian leap days), the days before the month, and the day; 1 January of year 1 is day 1 |
| Dates.Weekday | DZ-3-100324.py:77 | `weekday()`: the day number shifted so that day 1, a Monday, is 0, taken modulo 7 |
| Dates.DaysBeforeYearStep | DZ-3-100324.py:76 | the day number of 1 January grows by the length of the year |
| Dates.DaysBeforeYearGrowth | DZ-3-100324.py:76 | a later year starts after the whole of an earlier year |
| Dates.DayNumberWithinYear | DZ-3-100324.py:76 | every date of a year lies between the start of that year and the start of the next |
| Dates.DaysBeforeMonthGrowth | DZ-3-100324.py:76 | a later month starts after every day of an earlier month |
| Dates.PrecedesIffSmallerDayNumber | DZ-3-100324.py:76 | year-month-day order on dates is exactly the order of their day numbers |
| Dates.DayNumberInjective | DZ-3-100324.py:76 | two dates with the same day number are the same date |
| Dates.NextDay | DZ-3-100324.py:76 | the next day is again a calendar date |
| Dates.NextDayNumber | DZ-3-100324.py:76 | the next day has the next day number |
| Dates.AddDays | DZ-3-100324.py:76 | `d + timedelta(days=n)` is a calendar date |
| Dates.AddDaysNumber | DZ-3-100324.py:76 | adding n days adds exactly n to the day number |
| Dates.WithYear | DZ-3-100324.py:75 | `replace(year=y)` fails iff the year is out of range or the date is 29 February in a common year; otherwise it keeps month and day |
| Book.ContactsOf | DZ-3-100324.py:73 | the contacts in key order are the records stored under those keys |
| Book.ContactsOfAppend | DZ-3-100324.py:61 | storing a record under a new name adds its contact at the end |
| Book.LookupContactsOf | DZ-3-100324.py:63-64 | looking a name up in key order finds the record stored under that key, and nothing for a missing key |
| Book.FileUnderPresentKey | DZ-3-100324.py:77 | appending to an existing weekday list files the name into that group |
| Book.FileUnderNewKey | DZ-3-100324.py:77 | a weekday not met before gets a new group at the end |
| Book.Append | DZ-3-100324.py:77 | `upcoming_birthdays[w].append(name)` keeps the keys distinct and files the pair into the grouping |
| Book.AddressBook.constructor | DZ-3-100324.py:57-58 | a new book is empty |
| Book.AddressBook.AddRecord | DZ-3-100324.py:60-61 | the record is stored under its name; a new name goes last in order; an existing name keeps its place and gets the new record; every other contact is unchanged |
| Book.AddressBook.GetRecord | DZ-3-100324.py:63-64 | the record found is the one named `name` in the book, and there is none iff no contact has that name |
| Book.AddressBook.AllContactLines | DZ-3-100324.py:66-67 | one line per record in insertion order, `name: first phone` or `name: No phone number.` |
| Book.AddressBook.GetBirthdaysPerWeek | DZ-3-100324.py:70-78 | the loop returns the rendered groups of `BirthdaysPerWeek` on the records in insertion order, or its exception |
| Book.FailureEndsQuery | DZ-3-100324.py:73-75 | an exception on one record, after records that gave none, is the outcome of the whole query |
| Book.GroupByWeekdayStep | DZ-3-100324.py:77 | filing one more pair inserts it into the grouping so far |
| Birthdays.InWindow | DZ-3-100324.py:76 | `today <= d <= today + timedelta(days=7)`: false without computing the end when `d` is before today; otherwise the end is computed, and the test raises OverflowError on passing year 9999 |
| Birthdays.Pick | DZ-3-100324.py:74-77 | one loop step: no birthday adds nothing; the ValueError of `replace(year=...)` or the window's OverflowError ends the query; a date in the window adds (its weekday, the name) |
| Birthdays.Insert | DZ-3-100324.py:77 | `upcoming_birthdays[w].append(name)` on the dictionary's items: the group of `w` gets `name` at its end, or a new group goes last |
| Birthdays.BirthdaysPerWeek | DZ-3-100324.py:70-78 | the reference definition of the query: file the pairs of all records in store order, or give the first exception |
| Birthdays.Render | DZ-3-100324.py:78 | one line `Weekday: name, name` per group, joined by newlines |
| Birthdays.OverflowNearEndOfTime | DZ-3-100324.py:76 | `today + 7 days` overflows exactly during the last week of year 9999 |
| Birthdays.InWindowByDayNumber | DZ-3-100324.py:76 | the window test raises only by overflow and otherwise holds exactly for the day numbers today .. today + 7 |
| Birthdays.PickMeaning | DZ-3-100324.py:74-77 | a record raises iff its birthday breaks the query; it is kept iff its birthday is due, and then under the weekday of the moved date |
| Birthdays.CollectFailure | DZ-3-100324.py:73-77 | the loop fails iff some record raises, and then with the first exception |
| Birthdays.CollectMembers | DZ-3-100324.py:73-77 | after a successful loop the pairs gathered are exactly the records' pairs |
| Birthdays.CollectPrefixFailure | DZ-3-100324.py:73-75 | once an exception has occurred, later records do not matter |
| Birthdays.CollectStep | DZ-3-100324.py:73-77 | one more record either ends the loop with its exception, adds nothing, or adds its pair at the end |
| Birthdays.UpcomingFailure | DZ-3-100324.py:73-77 | the query raises iff some record raises, and then with the first such record's exception |
| Birthdays.UpcomingMembers | DZ-3-100324.py:73-77 | the pairs gathered are exactly those the records contribute |
| Birthdays.InsertEffect | DZ-3-100324.py:77 | appending to an existing weekday changes only that group; a new weekday adds a group at the end |
| Birthdays.FirstOccurrencesMeaning | DZ-3-100324.py:77-78 | the weekdays met are listed once each, and all of them are listed |
| Birthdays.NamesOnAbsent | DZ-3-100324.py:77 | a weekday with no pairs has no names |
| Birthdays.GroupsMeaning | DZ-3-100324.py:77-78 | the groups come in the order their weekdays are first met, and each lists its names in store order |
| Birthdays.ListedIsDue | DZ-3-100324.py:73-77 | every listed name belongs to a contact whose birthday is due, and its group is the weekday of that birthday in today's year |
| Birthdays.DueIsListed | DZ-3-100324.py:73-77 | every contact whose birthday is due is listed, in the group of the weekday of its birthday in today's year |
| Birthdays.ListedUnder | DZ-3-100324.py:73-77 | the group of weekday w lists a name iff some contact with that name has a birthday due within the week that falls on w in today's year |
| Birthdays.NamesIncluded | DZ-3-100324.py:73-77 | a name is listed iff some contact with that name has a birthday in today .. today + 7, moved to today's year |
| Birthdays.NamesOnSource | DZ-3-100324.py:77 | a name listed under a weekday comes from a pair with that weekday |
| Birthdays.NamesOnContains | DZ-3-100324.py:77 | every gathered pair's name is listed under its weekday |
| Birthdays.QueryFails | DZ-3-100324.py:75-76 | the query raises iff some contact has a 29 February birthday in a common year, or a birthday not before today in the last week of 9999 |
| Birthdays.MidJuneWeekEnd | DZ-3-100324.py:76 | a week after 10 June 2024 is 17 June 2024 |
| Birthdays.MidJuneWeekday | DZ-3-100324.py:77 | 12 June 2024 is a Wednesday |
| Birthdays.MidJunePicks | DZ-3-100324.py:74-77 | on 10 June 2024 a 12 June birthday is kept under Wednesday, and a 20 June birthday is not kept |
| Birthdays.MidJuneText | DZ-3-100324.py:78 | one group renders as `Wednesday: Alice` |
| Birthdays.CollectOneThenNone | DZ-3-100324.py:73-77 | a kept record followed by a skipped one gathers just the kept pair |
| Birthdays.FirstOfTwoDue | DZ-3-100324.py:73-78 | of two records where only the first is kept, the answer is a single group holding the first |
| Birthdays.MidJuneWeek | DZ-3-100324.py:70-78 | on 10 June 2024 the two-record book answers `Wednesday: Alice` |
| Birthdays.NoYearWrap | DZ-3-100324.py:75-76 | on 28 December a 1 January birthday is not listed, although it is four days ahead |
| Birthdays.LeapDayBreaksQuery | DZ-3-100324.py:75 | a 29 February birthday makes the whole query raise in 2023 |
| Commands.GetContactPhoneCommand | DZ-3-100324.py:117-125 | usage text unless there is exactly one argument; "Contact not found." for an unknown name; otherwise the first phone, or "No phone number." |
| Commands.ShowBirthdayCommand | DZ-3-100324.py:133-143 | usage text unless there is exactly one argument; "Contact not found."; "Birthday not set..." without a birthday; otherwise the birthday as `DD.MM.YYYY` |
| Commands.EditContactCommand | DZ-3-100324.py:145-153 | usage text unless the arguments are `name phone new`; "Contact not found." for an unknown name; on a known name the missing-argument exception escapes; it never answers "Phone number updated." |
| Commands.AddContactCommand | DZ-3-100324.py:89-101 | usage error with fewer than two arguments; for a known name the invalid, duplicate or attribute error and no change; for a new name with a valid or empty phone a record with exactly that phone goes last and "Contact added."; an invalid phone changes nothing; existing records are never changed |
| Commands.AddToKnownContact | DZ-3-100324.py:93-98 | for a known name the reply is the invalid, duplicate or attribute error, and the record is unchanged |
| Commands.AddNewContact | DZ-3-100324.py:99-101 | a new name with a valid or empty phone is added at the end with exactly that phone; an invalid phone leaves the book unchanged |
| Commands.AddBirthdayCommand | DZ-3-100324.py:105-114 | usage error unless there are two arguments; "Contact not found." and no change for an unknown name; a bad date is caught and keeps the old birthday; otherwise the contact's birthday is set; afterwards `show-birthday` repeats a zero-padded date text |
| Outcomes.Message | DZ-3-100324.py:18 | the texts the program writes for its own ValueErrors (line 18 for an invalid phone, line 38 for a duplicate, lines 91 and 107 for the usage errors), which a `Caught` reply returns as `str(e)`; none for runtime exceptions whose text Python composes |
| Commands.DuplicatePhoneSession | DZ-3-100324.py:89-98 | adding a contact and then the same phone again: the second `add` reports the duplicate, and the text it returns is "Phone number already exists for this contact"; `phone` still shows the phone |
| Commands.SecondPhoneSession | DZ-3-100324.py:93-98 | a second, different valid phone is refused with the attribute error, and the contact keeps only its first phone |
| Commands.BirthdaySession | DZ-3-100324.py:105-114 | `add-birthday` with the formatted date succeeds, and `show-birthday` then shows that text |
| Commands.EditSession | DZ-3-100324.py:145-151 | `edit` on an existing contact escapes with the missing-argument exception |

## Left out

- `main` (the input loop, `print`, the dispatch table and `.lower()` of the input line): interactive I/O glue.
- `datetime.now()`: the current date is a parameter `today` of the birthday query.
- `hello` and `all` are modelled as one-line functions with no contract of their own. `all` is `get_all_contacts`, whose lines are specified by `AllContactLines`.
- `input_error`: it is modelled by the `Caught` reply value. The exception texts Python composes itself (AttributeError, TypeError) are modelled as abstract failure values, not by their wording.
- Phone objects are modelled by their string value, since a `Phone` has no state beyond `value`.
- `Record(name, phone, birthday)`: the `birthday` argument of the constructor is never passed by the program and is not modelled.
- `str.isdigit` is modelled on the ASCII digits `0`..`9`, without Unicode digits.
- `strptime` is modelled for the `DD.MM.YYYY` pattern only, with ASCII digits. Its space-padded day (`' 5.06.2024'`) is not modelled.
- DateText.Format: always writes the year zero-padded to four digits, so `01.01.0999` is shown back as given. Recent CPython versions pad `%Y` this way. Older versions on the GNU C library write `999`, and then the `show-birthday` round trip fails for years below 1000. That platform-dependent output is not modelled.
- The weekday names are the English names of the C locale. Other locales give other `strftime("%A")` names.
