/** The birthday text format `DD.MM.YYYY`: the parsing done by
    `datetime.strptime(value, '%d.%m.%Y')` and the formatting done by
    `strftime("%d.%m.%Y")`. */
module DateText {
  import opened Outcomes
  import opened Text
  import opened Dates

  function DigitValue(c: char): int
    requires IsDigit(c)
  {
    c as int - '0' as int
  }

  function DigitChar(n: int): (c: char)
    requires 0 <= n <= 9
    ensures IsDigit(c) && DigitValue(c) == n
  {
    ('0' as int + n) as char
  }

  /** The decimal value of a string of digits. */
  function NumberValue(s: string): nat
    requires AllDigits(s)
  {
    if s == [] then 0 else NumberValue(s[..|s| - 1]) * 10 + DigitValue(s[|s| - 1])
  }

  /** Python's `s.split(sep)`: always at least one (possibly empty) part. */
  function SplitAt(s: string, sep: char): (parts: seq<string>)
    ensures |parts| >= 1
  {
    if s == [] then [""]
    else
      var rest := SplitAt(s[1..], sep);
      if s[0] == sep then [""] + rest else [[s[0]] + rest[0]] + rest[1..]
  }

  /** `strptime(text, '%d.%m.%Y')`: a day and a month of one or two digits,
      a year of exactly four digits, separated by dots, and a date that
      exists. Every failure is the same ValueError. */
  function Parse(text: string): (r: Result<ValidDate>)
    ensures r.Err? ==> r.error == BadDate
  {
    var parts := SplitAt(text, '.');
    if |parts| != 3 then Err(BadDate)
    else
      var dd, mm, yyyy := parts[0], parts[1], parts[2];
      if !IsDateFields(dd, mm, yyyy) then Err(BadDate)
      else
        var d := FieldsDate(dd, mm, yyyy);
        if IsValid(d) then Ok(d) else Err(BadDate)
  }

  /** The fields `%d`, `%m` and `%Y` accept: a day and a month of one or two
      digits and a year of exactly four. */
  predicate IsDateFields(dd: string, mm: string, yyyy: string)
  {
    1 <= |dd| <= 2 && 1 <= |mm| <= 2 && |yyyy| == 4
    && AllDigits(dd) && AllDigits(mm) && AllDigits(yyyy)
  }

  /** The date the three fields spell, before the calendar check. */
  function FieldsDate(dd: string, mm: string, yyyy: string): Date
    requires IsDateFields(dd, mm, yyyy)
  {
    Date(NumberValue(yyyy), NumberValue(mm), NumberValue(dd))
  }

  /** A number below 100 as two digits, zero-padded. */
  function Pad2(n: int): (s: string)
    requires 0 <= n < 100
    ensures |s| == 2 && AllDigits(s) && NumberValue(s) == n
  {
    var s := [DigitChar(n / 10), DigitChar(n % 10)];
    assert s[..1] == [s[0]] && s[..1][..0] == [];
    assert NumberValue(s[..1]) == n / 10;
    s
  }

  /** A number below 10000 as four digits, zero-padded. */
  function Pad4(n: int): (s: string)
    requires 0 <= n < 10000
    ensures |s| == 4 && AllDigits(s) && NumberValue(s) == n
  {
    var hi, lo := Pad2(n / 100), Pad2(n % 100);
    NumberValueOfFour(hi, lo);
    hi + lo
  }

  lemma NumberValueOfFour(hi: string, lo: string)
    requires |hi| == 2 && |lo| == 2 && AllDigits(hi) && AllDigits(lo)
    ensures AllDigits(hi + lo) && NumberValue(hi + lo) == NumberValue(hi) * 100 + NumberValue(lo)
  {
    var s := hi + lo;
    assert s[..3] == hi + [lo[0]] && s[..3][..2] == hi;
    assert lo[..1] == [lo[0]] && lo[..1][..0] == [];
    var a, b := DigitValue(lo[0]), DigitValue(lo[1]);
    assert NumberValue(lo[..1]) == a;
    assert NumberValue(lo) == a * 10 + b;
    assert NumberValue(s[..3]) == NumberValue(hi) * 10 + a;
    assert NumberValue(s) == NumberValue(s[..3]) * 10 + b;
  }

  /** `strftime("%d.%m.%Y")`. */
  function Format(d: ValidDate): (s: string)
    ensures IsCanonical(s)
  {
    Pad2(d.day) + "." + Pad2(d.month) + "." + Pad4(d.year)
  }

  /** The fully zero-padded form `DD.MM.YYYY`. */
  predicate IsCanonical(s: string)
  {
    |s| == 10 && s[2] == '.' && s[5] == '.'
    && AllDigits(s[..2]) && AllDigits(s[3..5]) && AllDigits(s[6..])
  }

  lemma {:induction false} SplitWithoutSeparator(s: string, sep: char)
    requires forall i :: 0 <= i < |s| ==> s[i] != sep
    ensures SplitAt(s, sep) == [s]
  {
    if s != [] {
      SplitWithoutSeparator(s[1..], sep);
      assert [s[0]] + s[1..] == s;
    }
  }

  lemma {:induction false} SplitAfterSeparator(a: string, sep: char, b: string)
    requires forall i :: 0 <= i < |a| ==> a[i] != sep
    ensures SplitAt(a + [sep] + b, sep) == [a] + SplitAt(b, sep)
  {
    if a == [] {
      assert (a + [sep] + b)[1..] == b;
    } else {
      assert (a + [sep] + b)[1..] == a[1..] + [sep] + b;
      SplitAfterSeparator(a[1..], sep, b);
      assert [a[0]] + a[1..] == a;
    }
  }

  /** Two digit strings of the same length with the same value are equal. */
  lemma {:induction false} NumberValueInjective(x: string, y: string)
    requires AllDigits(x) && AllDigits(y) && |x| == |y|
    requires NumberValue(x) == NumberValue(y)
    ensures x == y
  {
    if x != [] {
      var n := |x| - 1;
      assert DigitValue(x[n]) == DigitValue(y[n]);
      NumberValueInjective(x[..n], y[..n]);
      assert x == x[..n] + [x[n]] && y == y[..n] + [y[n]];
    }
  }

  /** The three dot-separated parts of a canonical date text. */
  lemma SplitCanonical(s: string)
    requires IsCanonical(s)
    ensures SplitAt(s, '.') == [s[..2], s[3..5], s[6..]]
  {
    assert forall i :: 0 <= i < 2 ==> s[..2][i] != '.' by {
      forall i | 0 <= i < 2 ensures s[..2][i] != '.' { assert IsDigit(s[..2][i]); }
    }
    assert forall i :: 0 <= i < 2 ==> s[3..5][i] != '.' by {
      forall i | 0 <= i < 2 ensures s[3..5][i] != '.' { assert IsDigit(s[3..5][i]); }
    }
    assert forall i :: 0 <= i < 4 ==> s[6..][i] != '.' by {
      forall i | 0 <= i < 4 ensures s[6..][i] != '.' { assert IsDigit(s[6..][i]); }
    }
    assert s == s[..2] + ['.'] + (s[3..5] + ['.'] + s[6..]);
    SplitAfterSeparator(s[..2], '.', s[3..5] + ['.'] + s[6..]);
    SplitAfterSeparator(s[3..5], '.', s[6..]);
    SplitWithoutSeparator(s[6..], '.');
  }

  /** Formatting a date and parsing the text gives the date back. */
  lemma ParseFormat(d: ValidDate)
    ensures Parse(Format(d)) == Ok(d)
  {
    SplitCanonical(Format(d));
    var s := Format(d);
    assert s[..2] == Pad2(d.day) && s[3..5] == Pad2(d.month) && s[6..] == Pad4(d.year);
  }

  /** A fully zero-padded text that parses is formatted back to itself, so
      `show-birthday` repeats what `add-birthday` was given. */
  lemma FormatParse(s: string)
    requires IsCanonical(s) && Parse(s).Ok?
    ensures Format(Parse(s).value) == s
  {
    SplitCanonical(s);
    var d := Parse(s).value;
    NumberValueInjective(Pad2(d.day), s[..2]);
    NumberValueInjective(Pad2(d.month), s[3..5]);
    NumberValueInjective(Pad4(d.year), s[6..]);
    assert s == s[..2] + "." + s[3..5] + "." + s[6..];
  }

  /** Joining the parts of a split with the separator gives the text back. */
  lemma {:induction false} JoinSplit(s: string, sep: char)
    ensures Join(SplitAt(s, sep), [sep]) == s
  {
    if s != [] {
      var rest := SplitAt(s[1..], sep);
      JoinSplit(s[1..], sep);
      if s[0] == sep {
        assert Join([""] + rest, [sep]) == "" + [sep] + Join(rest, [sep]);
      } else if |rest| == 1 {
        assert SplitAt(s, sep) == [[s[0]] + rest[0]];
      } else {
        assert Join(rest, [sep]) == rest[0] + [sep] + Join(rest[1..], [sep]);
        assert ([[s[0]] + rest[0]] + rest[1..])[1..] == rest[1..];
      }
    }
  }

  /** A text `dd.mm.yyyy` with fields of the accepted shape parses to the
      date they spell when that date exists, and fails otherwise. */
  lemma ParseFields(dd: string, mm: string, yyyy: string)
    requires IsDateFields(dd, mm, yyyy)
    ensures Parse(dd + "." + mm + "." + yyyy) ==
              if IsValid(FieldsDate(dd, mm, yyyy)) then Ok(FieldsDate(dd, mm, yyyy)) else Err(BadDate)
  {
    assert forall i :: 0 <= i < |dd| ==> dd[i] != '.' by {
      forall i | 0 <= i < |dd| ensures dd[i] != '.' { assert IsDigit(dd[i]); }
    }
    assert forall i :: 0 <= i < |mm| ==> mm[i] != '.' by {
      forall i | 0 <= i < |mm| ensures mm[i] != '.' { assert IsDigit(mm[i]); }
    }
    assert forall i :: 0 <= i < |yyyy| ==> yyyy[i] != '.' by {
      forall i | 0 <= i < |yyyy| ensures yyyy[i] != '.' { assert IsDigit(yyyy[i]); }
    }
    assert dd + "." + mm + "." + yyyy == dd + ['.'] + (mm + ['.'] + yyyy);
    SplitAfterSeparator(dd, '.', mm + ['.'] + yyyy);
    SplitAfterSeparator(mm, '.', yyyy);
    SplitWithoutSeparator(yyyy, '.');
  }

  /** Every text that parses has the shape `dd.mm.yyyy`, and its date is the
      one its fields spell. */
  lemma ParsedFields(s: string)
    requires Parse(s).Ok?
    ensures exists dd, mm, yyyy :: s == dd + "." + mm + "." + yyyy && IsDateFields(dd, mm, yyyy)
                                   && Parse(s).value == FieldsDate(dd, mm, yyyy)
  {
    var parts := SplitAt(s, '.');
    JoinSplit(s, '.');
    assert Join(parts[1..], ".") == parts[1] + "." + Join(parts[2..], ".");
    assert s == parts[0] + "." + parts[1] + "." + parts[2];
  }

  /** `strptime(s, '%d.%m.%Y')` succeeds exactly on texts made of a day and a
      month of one or two digits and a year of four, separated by dots, that
      name a date which exists. */
  lemma ParseAcceptsExactly(s: string)
    ensures Parse(s).Ok? <==>
              exists dd, mm, yyyy :: s == dd + "." + mm + "." + yyyy && IsDateFields(dd, mm, yyyy)
                                     && IsValid(FieldsDate(dd, mm, yyyy))
  {
    if Parse(s).Ok? {
      ParsedFields(s);
    }
    if exists dd, mm, yyyy :: s == dd + "." + mm + "." + yyyy && IsDateFields(dd, mm, yyyy)
                              && IsValid(FieldsDate(dd, mm, yyyy)) {
      var dd, mm, yyyy :| s == dd + "." + mm + "." + yyyy && IsDateFields(dd, mm, yyyy)
                          && IsValid(FieldsDate(dd, mm, yyyy));
      ParseFields(dd, mm, yyyy);
    }
  }

  /** A day and a month without leading zeros are accepted. */
  lemma ParseUnpadded()
    ensures Parse("5.6.2024") == Ok(Date(2024, 6, 5))
  {
    var yyyy := "2024";
    assert yyyy[..3][..2][..1][..0] == [];
    assert NumberValue(yyyy[..3][..2][..1]) == 2;
    assert NumberValue(yyyy[..3][..2]) == 20;
    assert NumberValue(yyyy[..3]) == 202;
    assert NumberValue(yyyy) == 2024;
    assert NumberValue("5") == 5 && NumberValue("6") == 6 by {
      assert "5"[..0] == [] && "6"[..0] == [];
    }
    ParseFields("5", "6", yyyy);
    assert "5" + "." + "6" + "." + yyyy == "5.6.2024";
  }

  /** Text without any dot is rejected. */
  lemma ParseRejectsWord()
    ensures Parse("hello").Err?
  {
    SplitWithoutSeparator("hello", '.');
  }

  /** Dashes are not the separator. */
  lemma ParseRejectsDashes()
    ensures Parse("2024-06-10").Err?
  {
    SplitWithoutSeparator("2024-06-10", '.');
  }

  /** A two-digit year is rejected. */
  lemma ParseRejectsShortYear()
    ensures Parse("01.01.99").Err?
  {
    var s := "01.01.99";
    assert s == "01" + ['.'] + ("01" + ['.'] + "99");
    SplitAfterSeparator("01", '.', "01" + ['.'] + "99");
    SplitAfterSeparator("01", '.', "99");
    SplitWithoutSeparator("99", '.');
  }
}
