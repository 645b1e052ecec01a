/** The user table component: the user records and the table state it owns,
    the type correction applied to freshly loaded records, the filter, the
    balance reset, the zero-padded date layout and the text announced when
    the sort changes. */
module AppComponent {
  import opened JsText

  /** A field as it comes out of the JSON document (text) or after its type
      was corrected (the parsed value). */
  datatype Loose<T> = Text(text: string) | Typed(value: T)

  /** One user record. `registered` holds the Date's time value once typed,
      `balance` the parsed number. */
  class User {
    var name: string
    var age: int
    var registered: Loose<real>
    var email: string
    var balance: Loose<real>
  }

  /** The component's own state: the loaded users and the filter handed to
      the table's data source. */
  class UserTable {
    var users: seq<User>
    var filter: string

    constructor ()
      ensures users == [] && filter == ""
    {
      users := [];
      filter := "";
    }

    /** Installs the loaded records and corrects their types in place, one
        record after the other. */
    method Load(loaded: seq<User>, parseDate: string -> real, parseNumber: string -> real)
      requires forall i, j :: 0 <= i < j < |loaded| ==> loaded[i] != loaded[j]
      requires forall i :: 0 <= i < |loaded| ==> loaded[i].registered.Text? && loaded[i].balance.Text?
      modifies this`users, loaded
      ensures users == loaded
      ensures forall i :: 0 <= i < |users| ==>
        users[i].registered == Typed(parseDate(RemoveFirst(old(loaded[i].registered).text, ' '))) &&
        users[i].balance == Typed(parseNumber(RemoveFirst(old(loaded[i].balance).text, ',')))
      ensures forall i :: 0 <= i < |users| ==>
        users[i].name == old(loaded[i].name) && users[i].age == old(loaded[i].age) &&
        users[i].email == old(loaded[i].email)
    {
      users := loaded;
      for i := 0 to |loaded|
        invariant users == loaded
        invariant forall k :: 0 <= k < i ==>
          loaded[k].registered == Typed(parseDate(RemoveFirst(old(loaded[k].registered).text, ' '))) &&
          loaded[k].balance == Typed(parseNumber(RemoveFirst(old(loaded[k].balance).text, ',')))
        invariant forall k :: i <= k < |loaded| ==>
          loaded[k].registered == old(loaded[k].registered) && loaded[k].balance == old(loaded[k].balance)
        invariant forall k :: 0 <= k < |loaded| ==>
          loaded[k].name == old(loaded[k].name) && loaded[k].age == old(loaded[k].age) &&
          loaded[k].email == old(loaded[k].email)
      {
        CorrectTypes(loaded[i], parseDate, parseNumber);
      }
    }

    /** Stores the filter typed by the user, trimmed and lower-cased. */
    method ApplyFilter(value: string)
      modifies this`filter
      ensures filter == NormalizeFilter(value)
    {
      filter := Lower(Trim(value));
    }

    /** Sets every user's balance to 0 in place and touches nothing else. */
    method ResetBalance()
      modifies users
      ensures forall k :: 0 <= k < |users| ==> users[k].balance == Typed(0.0)
      ensures forall k :: 0 <= k < |users| ==>
        users[k].name == old(users[k].name) && users[k].age == old(users[k].age) &&
        users[k].registered == old(users[k].registered) && users[k].email == old(users[k].email)
    {
      var i := 0;
      while i < |users|
        invariant 0 <= i <= |users|
        invariant forall k :: 0 <= k < i ==> users[k].balance == Typed(0.0)
        invariant forall k :: 0 <= k < |users| ==>
          users[k].name == old(users[k].name) && users[k].age == old(users[k].age) &&
          users[k].registered == old(users[k].registered) && users[k].email == old(users[k].email)
      {
        users[i].balance := Typed(0.0);
        i := i + 1;
      }
    }
  }

  /** The body of the type-correcting loop for one record: the date text
      loses its first space before `parseDate` reads it, the balance text
      loses its first comma before `parseNumber` reads it. `parseDate` and
      `parseNumber` stand for `new Date(..)` and `parseFloat`. */
  method CorrectTypes(user: User, parseDate: string -> real, parseNumber: string -> real)
    requires user.registered.Text? && user.balance.Text?
    modifies user
    ensures user.registered == Typed(parseDate(RemoveFirst(old(user.registered).text, ' ')))
    ensures user.balance == Typed(parseNumber(RemoveFirst(old(user.balance).text, ',')))
    ensures user.name == old(user.name) && user.age == old(user.age) && user.email == old(user.email)
  {
    user.registered := Typed(parseDate(RemoveFirst(user.registered.text, ' ')));
    user.balance := Typed(parseNumber(RemoveFirst(user.balance.text, ',')));
  }

  /** The data source's filter predicate: the lower-cased filter occurs in
      the lower-cased name, so a matching filter is never longer than the
      name. */
  predicate FilterPredicate(name: string, filter: string): (b: bool)
    ensures b ==> |filter| <= |name|
  {
    IndexOf(Lower(name), Lower(filter)) != -1
  }

  /** The predicate holds exactly when the filter is a contiguous part of the
      name, ignoring ASCII case. */
  lemma FilterPredicateMeansSubstring(name: string, filter: string)
    ensures FilterPredicate(name, filter) <==> exists j :: OccursAt(Lower(name), Lower(filter), j)
  {
    IndexOfFound(Lower(name), Lower(filter));
  }

  /** The empty filter matches every record. */
  lemma EmptyFilterMatchesAll(name: string)
    ensures FilterPredicate(name, "")
  {
    assert OccursAt(Lower(name), Lower(""), 0);
    IndexOfFound(Lower(name), Lower(""));
  }

  /** Case does not matter on either side. */
  lemma {:induction false} FilterPredicateIgnoresCase(name: string, filter: string)
    ensures FilterPredicate(name, filter) == FilterPredicate(Lower(name), Lower(filter))
  {
    LowerIdempotent(name);
    LowerIdempotent(filter);
  }

  /** `a` and `b` are the same text up to ASCII case: at every position the
      characters are equal or one is the upper-case form of the other. */
  predicate SameIgnoringCase(a: string, b: string) {
    |a| == |b| &&
    forall i :: 0 <= i < |a| ==>
      a[i] == b[i] ||
      (IsUpper(a[i]) && b[i] as int == a[i] as int + 32) ||
      (IsUpper(b[i]) && a[i] as int == b[i] as int + 32)
  }

  /** A filter that appears in the name in any mix of upper and lower case
      matches: "ANN" matches "Anna". */
  lemma CaseVariantMatches(name: string, filter: string, j: int)
    requires 0 <= j && j + |filter| <= |name|
    requires SameIgnoringCase(name[j..j + |filter|], filter)
    ensures FilterPredicate(name, filter)
  {
    var ln, lf := Lower(name), Lower(filter);
    forall k | 0 <= k < |filter|
      ensures ln[j + k] == lf[k]
    {
      assert name[j..j + |filter|][k] == name[j + k];
    }
    assert ln[j..j + |lf|] == lf;
    assert OccursAt(ln, lf, j);
    FilterPredicateMeansSubstring(name, filter);
  }

  /** The filter text as `applyFilter` stores it: the lower-cased middle of
      the typed text once the whitespace at both ends is cut. */
  function NormalizeFilter(value: string): (r: string)
    ensures |r| <= |value|
    ensures var a := |value| - |TrimStart(value)|;
            WhitespaceOutside(value, a, a + |r|) && r == Lower(value[a..a + |r|])
    ensures r == [] || (!IsWhitespace(r[0]) && !IsWhitespace(r[|r| - 1]))
    ensures forall i :: 0 <= i < |r| ==> !IsUpper(r[i])
  {
    Lower(Trim(value))
  }

  /** Normalising a stored filter again changes nothing. */
  lemma {:induction false} NormalizeFilterIdempotent(value: string)
    ensures NormalizeFilter(NormalizeFilter(value)) == NormalizeFilter(value)
  {
    var n := NormalizeFilter(value);
    TrimOfTrimmed(n);
    assert Lower(n) == n;
  }

  /** The while loop of `zeroPad`, as recursion: prepend '0' while shorter
      than `size`. */
  function LeftPad(t: string, size: int): (r: string)
    decreases size - |t|
    ensures |r| == (if |t| < size then size else |t|)
  {
    if |t| < size then LeftPad("0" + t, size) else t
  }

  /** The padded text is `t` behind `max(|t|, size) - |t|` zeros: it never
      truncates, and it is `t` itself when `t` is long enough. */
  lemma {:induction false} LeftPadShape(t: string, size: int)
    decreases size - |t|
    ensures var r := LeftPad(t, size);
            |r| == (if |t| < size then size else |t|) &&
            r[|r| - |t|..] == t &&
            forall i :: 0 <= i < |r| - |t| ==> r[i] == '0'
  {
    if |t| < size {
      LeftPadShape("0" + t, size);
      var r := LeftPad(t, size);
      var k := |r| - |t|;
      assert r[k - 1..] == "0" + t;
      assert r[k - 1] == '0' && r[k..] == r[k - 1..][1..];
    }
  }

  /** Padding keeps a digit string a digit string with the same value. */
  lemma {:induction false} LeftPadKeepsValue(t: string, size: int)
    requires IsDigits(t)
    decreases size - |t|
    ensures IsDigits(LeftPad(t, size)) && DigitsValue(LeftPad(t, size)) == DigitsValue(t)
  {
    if |t| < size {
      LeadingZero(t);
      LeftPadKeepsValue("0" + t, size);
    }
  }

  /** What `zeroPad(num, size)` returns: at least `size` characters, and for
      a non-negative number a digit string that reads back as the number. */
  function Padded(num: int, size: int): (r: string)
    ensures |r| >= size && |r| >= |NumberText(num)|
    ensures num >= 0 ==> IsDigits(r) && DigitsValue(r) == num
  {
    if num >= 0 then LeftPadKeepsValue(NumberText(num), size); LeftPad(NumberText(num), size)
    else LeftPad(NumberText(num), size)
  }

  /** `zeroPad`: the decimal text of `num`, with '0' prepended until it is at
      least `size` characters long. */
  method ZeroPad(num: int, size: int) returns (s: string)
    ensures s == Padded(num, size)
  {
    s := NumberText(num);
    while |s| < size
      invariant LeftPad(s, size) == Padded(num, size)
      decreases size - |s|
    {
      s := "0" + s;
    }
  }

  /** A whole number from 0 to 99 pads to exactly two characters. */
  lemma TwoDigitWidth(n: int)
    requires 0 <= n <= 99
    ensures |Padded(n, 2)| == 2
  {
    if n < 10 { NatTextWidth(n, 1); } else { NatTextWidth(n, 2); }
    LeftPadShape(NatText(n), 2);
  }

  /** A whole number from 0 to 99 pads to exactly two digits that read back
      as the number. */
  lemma TwoDigitField(n: int)
    requires 0 <= n <= 99
    ensures |Padded(n, 2)| == 2 && IsDigits(Padded(n, 2)) && DigitsValue(Padded(n, 2)) == n
  {
    var t := NatText(n);
    TwoDigitWidth(n);
    LeftPadKeepsValue(t, 2);
  }

  /** The year field: at least two digits, all of the year's digits kept. */
  lemma YearField(n: int)
    requires 0 <= n
    ensures |Padded(n, 2)| >= 2 && IsDigits(Padded(n, 2)) && DigitsValue(Padded(n, 2)) == n
  {
    var t := NatText(n);
    LeftPadShape(t, 2);
    LeftPadKeepsValue(t, 2);
  }

  /** The template of `formatDate`, filled with the already padded fields. */
  function DateTimeText(d: string, m: string, yr: string, h: string, mi: string, s: string): string {
    d + "-" + m + "-" + yr + " " + h + ":" + mi + ":" + s + " UTC"
  }

  /** The text `formatDate` builds from the components of the shifted date:
      day of month, month index (0 for January), full year, hours, minutes
      and seconds, each passed through `zeroPad` with size 2. */
  function FormatDate(date: int, month: int, fullYear: int, hours: int, minutes: int, seconds: int): (r: string)
    ensures |r| >= 21 && |r| >= 19 + |NumberText(fullYear)|
    ensures r[|r| - 4..] == " UTC"
  {
    DateTimeText(Padded(date, 2), Padded(month + 1, 2), Padded(fullYear, 2),
                 Padded(hours, 2), Padded(minutes, 2), Padded(seconds, 2))
  }

  /** `r` has the layout `DD-MM-Y.. HH:MM:SS UTC` with the given fields:
      every field but the year two characters wide, the separators at fixed
      offsets from the year's end. */
  predicate HasDateTimeLayout(r: string, d: string, m: string, yr: string, h: string, mi: string, s: string) {
    var y := |yr|;
    |r| == 19 + y &&
    r[0..2] == d && r[2] == '-' && r[3..5] == m && r[5] == '-' && r[6..6 + y] == yr &&
    r[6 + y] == ' ' && r[7 + y..9 + y] == h && r[9 + y] == ':' && r[10 + y..12 + y] == mi &&
    r[12 + y] == ':' && r[13 + y..15 + y] == s && r[15 + y..] == " UTC"
  }

  /** The template puts two-character fields where the layout expects them. */
  lemma DateTimeLayout(d: string, m: string, yr: string, h: string, mi: string, s: string)
    requires |d| == 2 && |m| == 2 && |h| == 2 && |mi| == 2 && |s| == 2
    ensures HasDateTimeLayout(DateTimeText(d, m, yr, h, mi, s), d, m, yr, h, mi, s)
  {
    var r := DateTimeText(d, m, yr, h, mi, s);
    var y := |yr|;
    var dateText := d + "-" + m + "-" + yr;
    var timeText := h + ":" + mi + ":" + s;
    assert r == dateText + (" " + timeText + " UTC");
    assert r[..6 + y] == dateText;
    assert r[6 + y..] == " " + timeText + " UTC";
    assert r[7 + y..15 + y] == timeText;
  }

  /** For in-range components `formatDate` yields `DD-MM-Y.. HH:MM:SS UTC`
      whose fields are the zero-padded components: two digits that read back
      as the component (TwoDigitField), and the year with all of its digits,
      never fewer than two (YearField). */
  lemma FormatDateLayout(date: int, month: int, fullYear: int, hours: int, minutes: int, seconds: int)
    requires 1 <= date <= 31 && 0 <= month <= 11
    requires 0 <= hours <= 23 && 0 <= minutes <= 59 && 0 <= seconds <= 59
    ensures HasDateTimeLayout(FormatDate(date, month, fullYear, hours, minutes, seconds),
                              Padded(date, 2), Padded(month + 1, 2), Padded(fullYear, 2),
                              Padded(hours, 2), Padded(minutes, 2), Padded(seconds, 2))
  {
    TwoDigitWidth(date);
    TwoDigitWidth(month + 1);
    TwoDigitWidth(hours);
    TwoDigitWidth(minutes);
    TwoDigitWidth(seconds);
    DateTimeLayout(Padded(date, 2), Padded(month + 1, 2), Padded(fullYear, 2),
                   Padded(hours, 2), Padded(minutes, 2), Padded(seconds, 2));
  }

  /** A four-digit year is printed with all four of its digits, so the
      whole text is 23 characters long: padding to size 2 never truncates. */
  lemma FormatDateFourDigitYear(date: int, month: int, fullYear: int, hours: int, minutes: int, seconds: int)
    requires 1 <= date <= 31 && 0 <= month <= 11 && 1000 <= fullYear <= 9999
    requires 0 <= hours <= 23 && 0 <= minutes <= 59 && 0 <= seconds <= 59
    ensures |FormatDate(date, month, fullYear, hours, minutes, seconds)| == 23
    ensures FormatDate(date, month, fullYear, hours, minutes, seconds)[6..10] == NumberText(fullYear)
  {
    assert Pow10(3) == 1000 && Pow10(4) == 10000;
    NatTextWidth(fullYear, 4);
    ZeroPadWide(fullYear);
    FormatDateLayout(date, month, fullYear, hours, minutes, seconds);
  }

  /** A one-digit number gains exactly one leading zero. */
  lemma ZeroPadOneDigit(n: int)
    requires 0 <= n < 10
    ensures Padded(n, 2) == "0" + NumberText(n)
  {
    NatTextWidth(n, 1);
    var t := NatText(n);
    assert LeftPad("0" + t, 2) == "0" + t;
  }

  /** A number with two or more digits is left exactly as written. */
  lemma ZeroPadWide(n: int)
    requires 10 <= n
    ensures Padded(n, 2) == NumberText(n)
  {
    var t := NatText(n);
    assert t == NatText(n / 10) + [DigitChar(n % 10)];
  }

  /** The message handed to the live announcer for a sort direction
      (`"asc"`, `"desc"` or `""`): an empty direction means sorting was
      cleared. */
  function SortAnnouncement(direction: string): (r: string)
    ensures direction == "" <==> r == "Sorting cleared"
    ensures direction != "" ==> |r| == |direction| + 13 && r[7..|r| - 6] == direction
    ensures direction != "" ==> r[..7] == "Sorted " && r[|r| - 6..] == "ending"
  {
    if direction != "" then
      var r := "Sorted " + direction + "ending";
      assert r[5] != "Sorting cleared"[5];
      r
    else "Sorting cleared"
  }

  /** Different directions are announced differently. */
  lemma SortAnnouncementInjective(d1: string, d2: string)
    requires SortAnnouncement(d1) == SortAnnouncement(d2)
    ensures d1 == d2
  {
  }

  lemma SortAnnouncementExamples()
    ensures SortAnnouncement("asc") == "Sorted ascending"
    ensures SortAnnouncement("desc") == "Sorted descending"
    ensures SortAnnouncement("") == "Sorting cleared"
  {
    assert "Sorted " + "asc" + "ending" == "Sorted ascending";
    assert "Sorted " + "desc" + "ending" == "Sorted descending";
  }
}
