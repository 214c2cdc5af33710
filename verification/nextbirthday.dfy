/** The `!next` command: every user's next birthday after today, the
    soonest of them with all users tied on it, and the reply text with the
    bot's day-and-ordinal rendering. */
module NextBirthday {
  import opened Wrappers
  import opened Seqs
  import opened Text
  import opened Dates
  import opened Assoc
  import opened RecordStore

  /** The next birthday after `today`: the birth month and day in this
      year if that is strictly after today, else in the next year. None
      where `date.replace` raises ValueError (29 February in a common year,
      or a year past 9999). */
  function NextOccurrence(birth: Date, today: Date): (r: Option<Date>)
    requires ValidDate(today)
    ensures r.Some? ==> ValidDate(r.value) && SameDayOfYear(r.value, birth)
    ensures r.Some? ==> Before(today, r.value)
    ensures r.Some? ==> r.value.year == today.year || r.value.year == today.year + 1
  {
    match ReplaceYear(birth, today.year)
    case None => None
    case Some(thisYear) =>
      if Before(today, thisYear) then Some(thisYear) else ReplaceYear(thisYear, today.year + 1)
  }

  /** The result is the first date after today with the birth month and day. */
  lemma NextOccurrenceIsFirst(birth: Date, today: Date, x: Date)
    requires ValidDate(today) && NextOccurrence(birth, today).Some?
    requires ValidDate(x) && SameDayOfYear(x, birth) && Before(today, x)
    ensures !Before(x, NextOccurrence(birth, today).value)
  {
  }

  /** Only a 29 February birthday, or a today in year 9999, can fail. */
  lemma NextOccurrenceDefined(birth: Date, today: Date)
    requires ValidDate(today) && ValidDate(birth)
    requires !(birth.month == 2 && birth.day == 29) && today.year < MaxYear
    ensures NextOccurrence(birth, today).Some?
  {
  }

  /** A birthday falling exactly today is next due a year from now. */
  lemma BirthdayTodayRollsOver(birth: Date, today: Date)
    requires ValidDate(today) && ValidDate(birth) && SameDayOfYear(birth, today)
    requires today.year < MaxYear && !(today.month == 2 && today.day == 29)
    ensures NextOccurrence(birth, today) == Some(Date(today.year + 1, today.month, today.day))
  {
  }

  /** A 29 February birthday resolves only in a leap year before the day
      itself; otherwise one of the two `replace` calls raises. */
  lemma LeapDayBirthday(birth: Date, today: Date)
    requires ValidDate(today) && birth.month == 2 && birth.day == 29
    ensures NextOccurrence(birth, today).Some? <==>
      IsLeapYear(today.year) && (today.month == 1 || (today.month == 2 && today.day < 29))
  {
    if IsLeapYear(today.year) && !(today.month == 1 || (today.month == 2 && today.day < 29)) {
      assert !IsLeapYear(today.year + 1);
    }
  }

  /** The two worked examples: 15 March 1990 seen from 14 and 15 March 2024. */
  lemma NextOccurrenceExamples()
    ensures NextOccurrence(Date(1990, 3, 15), Date(2024, 3, 14)) == Some(Date(2024, 3, 15))
    ensures NextOccurrence(Date(1990, 3, 15), Date(2024, 3, 15)) == Some(Date(2025, 3, 15))
  {
  }

  /** One (user, next birthday) pair per record, in store order; None as
      soon as one record's `replace` raises. */
  function Occurrences(s: Store, today: Date): (r: Option<seq<(UserId, Date)>>)
    requires ValidDate(today)
    ensures r.Some? ==> |r.value| == |s|
    ensures r.Some? ==> forall i :: 0 <= i < |s| ==>
      r.value[i].0 == s[i].0 && NextOccurrence(s[i].1.birthDate, today) == Some(r.value[i].1)
    ensures r.None? <==> exists i :: 0 <= i < |s| && NextOccurrence(s[i].1.birthDate, today).None?
  {
    if s == [] then Some([])
    else match NextOccurrence(s[0].1.birthDate, today)
      case None => None
      case Some(d) =>
        match Occurrences(s[1..], today)
        case None => None
        case Some(rest) =>
          var occ := [(s[0].0, d)] + rest;
          assert occ[1..] == rest;
          Some(occ)
  }

  /** Sorted by date, earliest first. */
  predicate SortedByDate(l: seq<(UserId, Date)>) {
    forall i, j :: 0 <= i < j < |l| ==> !Before(l[j].1, l[i].1)
  }

  /** One step of a stable insertion sort: x goes after every entry whose
      date is not later than its own. */
  function Insert(x: (UserId, Date), l: seq<(UserId, Date)>): (r: seq<(UserId, Date)>)
    ensures multiset(r) == multiset(l) + multiset{x}
    ensures |r| == |l| + 1
  {
    if l == [] then [x]
    else if Before(x.1, l[0].1) then [x] + l
    else
      var r := [l[0]] + Insert(x, l[1..]);
      assert l == [l[0]] + l[1..];
      r
  }

  /** `sorted(next_birthday_list, key=lambda b: b['birthday'])`: Python's
      sort is stable, as this insertion sort is. */
  function SortByDate(l: seq<(UserId, Date)>): (r: seq<(UserId, Date)>)
    ensures multiset(r) == multiset(l)
    ensures |r| == |l|
  {
    if l == [] then []
    else
      var init := l[..|l| - 1];
      assert l == init + [l[|l| - 1]];
      Insert(l[|l| - 1], SortByDate(init))
  }

  lemma {:induction false} InsertSorted(x: (UserId, Date), l: seq<(UserId, Date)>)
    requires SortedByDate(l)
    ensures SortedByDate(Insert(x, l))
  {
    if l != [] && !Before(x.1, l[0].1) {
      InsertSorted(x, l[1..]);
      var r := Insert(x, l);
      var tail := Insert(x, l[1..]);
      assert r == [l[0]] + tail;
      forall j | 0 < j < |r|
        ensures !Before(r[j].1, l[0].1)
      {
        assert r[j] in multiset(tail);
        assert r[j] in multiset(l[1..]) + multiset{x};
        if r[j] != x {
          assert r[j] in l[1..];
        }
      }
    }
  }

  lemma {:induction false} SortByDateSorted(l: seq<(UserId, Date)>)
    ensures SortedByDate(SortByDate(l))
  {
    if l != [] {
      SortByDateSorted(l[..|l| - 1]);
      InsertSorted(l[|l| - 1], SortByDate(l[..|l| - 1]));
    }
  }

  /** The users whose next birthday is d, in the order of the list. */
  function TiedOn(l: seq<(UserId, Date)>, d: Date): (users: seq<UserId>)
    ensures |users| <= |l|
    ensures forall u :: u in users <==> exists i :: 0 <= i < |l| && l[i] == (u, d)
  {
    if l == [] then []
    else
      var rest := TiedOn(l[1..], d);
      assert forall i :: 0 < i < |l| ==> l[i] == l[1..][i - 1];
      if l[0].1 == d then [l[0].0] + rest else rest
  }

  lemma {:induction false} TiedOnConcat(a: seq<(UserId, Date)>, b: seq<(UserId, Date)>, d: Date)
    ensures TiedOn(a + b, d) == TiedOn(a, d) + TiedOn(b, d)
  {
    if a == [] {
      assert a + b == b;
    } else {
      var ab := a + b;
      assert ab[0] == a[0];
      assert ab[1..] == a[1..] + b;
      TiedOnConcat(a[1..], b, d);
      var head := if a[0].1 == d then [a[0].0] else [];
      assert TiedOn(ab, d) == head + TiedOn(a[1..] + b, d);
      assert TiedOn(a, d) == head + TiedOn(a[1..], d);
      AppendAssoc(head, TiedOn(a[1..], d), TiedOn(b, d));
    }
  }

  /** Entries all later than d contribute nobody. */
  lemma {:induction false} TiedOnLater(l: seq<(UserId, Date)>, d: Date)
    requires forall i :: 0 <= i < |l| ==> Before(d, l[i].1)
    ensures TiedOn(l, d) == []
  {
    if l != [] {
      TiedOnLater(l[1..], d);
    }
  }

  /** Stability: inserting x leaves the order of the entries on any date as
      it was, with x after those of its own date. */
  lemma {:induction false} TiedOnInsert(x: (UserId, Date), l: seq<(UserId, Date)>, d: Date)
    requires SortedByDate(l)
    ensures TiedOn(Insert(x, l), d) == TiedOn(l, d) + TiedOn([x], d)
  {
    if l == [] {
    } else if Before(x.1, l[0].1) {
      assert Insert(x, l) == [x] + l;
      TiedOnConcat([x], l, d);
      if x.1 == d {
        forall i | 0 <= i < |l|
          ensures Before(d, l[i].1)
        {
          if i > 0 {
            assert !Before(l[i].1, l[0].1);
            BeforeTotal(l[0].1, l[i].1);
            if l[0].1 != l[i].1 {
              BeforeTransitive(d, l[0].1, l[i].1);
            }
          }
        }
        TiedOnLater(l, d);
      }
    } else {
      var tail := Insert(x, l[1..]);
      assert Insert(x, l) == [l[0]] + tail;
      SortedTail(l);
      TiedOnInsert(x, l[1..], d);
      TiedOnConcat([l[0]], tail, d);
      TiedOnConcat([l[0]], l[1..], d);
      assert [l[0]] + l[1..] == l;
      AppendAssoc(TiedOn([l[0]], d), TiedOn(l[1..], d), TiedOn([x], d));
    }
  }

  lemma SortedTail(l: seq<(UserId, Date)>)
    requires SortedByDate(l) && l != []
    ensures SortedByDate(l[1..])
  {
    forall i, j | 0 <= i < j < |l| - 1
      ensures !Before(l[1..][j].1, l[1..][i].1)
    {
      assert l[1..][i] == l[i + 1] && l[1..][j] == l[j + 1];
    }
  }

  /** Filtering the stably sorted list for a date gives the users of that
      date in their original order. */
  lemma {:induction false} TiedOnSorted(l: seq<(UserId, Date)>, d: Date)
    ensures TiedOn(SortByDate(l), d) == TiedOn(l, d)
  {
    if l != [] {
      var init, last := l[..|l| - 1], l[|l| - 1];
      TiedOnSorted(init, d);
      SortByDateSorted(init);
      assert SortByDate(l) == Insert(last, SortByDate(init));
      TiedOnInsert(last, SortByDate(init), d);
      TiedOnConcat(init, [last], d);
      InitLast(l);
    }
  }

  /** The answer to `!next`: the soonest date and everyone due on it. */
  datatype Soonest = Soonest(date: Date, users: seq<UserId>)

  /** The soonest entry of the sorted list and every entry of the sorted
      list with the same date. */
  function SoonestOf(occ: seq<(UserId, Date)>): (r: Soonest)
    requires |occ| > 0
  {
    var sorted := SortByDate(occ);
    var first := sorted[0].1;
    Soonest(first, TiedOn(sorted, first))
  }

  /** The soonest date is one of the dates and no date is earlier; the
      users are exactly those due on it, in insertion order. */
  lemma SoonestIsEarliest(occ: seq<(UserId, Date)>)
    requires |occ| > 0
    ensures exists i :: 0 <= i < |occ| && occ[i].1 == SoonestOf(occ).date
    ensures forall i :: 0 <= i < |occ| ==> !Before(occ[i].1, SoonestOf(occ).date)
    ensures SoonestOf(occ).users == TiedOn(occ, SoonestOf(occ).date)
    ensures |SoonestOf(occ).users| > 0
  {
    var sorted := SortByDate(occ);
    SortByDateSorted(occ);
    var first := sorted[0];
    assert first in multiset(occ);
    forall i | 0 <= i < |occ|
      ensures !Before(occ[i].1, first.1)
    {
      assert occ[i] in multiset(sorted);
      var j :| 0 <= j < |sorted| && sorted[j] == occ[i];
    }
    TiedOnSorted(occ, first.1);
    assert first.0 in TiedOn(sorted, first.1);
  }

  datatype NextError = DateOutOfRange

  /** `!next` before rendering: Failure where a `replace` raises (no reply
      is sent), None for an empty store, else the soonest date and users. */
  function Resolve(s: Store, today: Date): (r: Result<Option<Soonest>, NextError>)
    requires ValidDate(today)
    ensures r.Failure? <==> exists i :: 0 <= i < |s| && NextOccurrence(s[i].1.birthDate, today).None?
    ensures r.Success? ==> (r.value.None? <==> |s| == 0)
  {
    match Occurrences(s, today)
    case None => Failure(DateOutOfRange)
    case Some(occ) => if occ == [] then Success(None) else Success(Some(SoonestOf(occ)))
  }

  /** The users `!next` names are exactly the store's users whose next
      birthday is the soonest one, in insertion order, and nobody's next
      birthday is sooner. */
  lemma ResolveNamesTies(s: Store, today: Date)
    requires ValidDate(today)
    requires Resolve(s, today).Success? && Resolve(s, today).value.Some?
    ensures var next := Resolve(s, today).value.value;
      && |next.users| > 0
      && (forall i :: 0 <= i < |s| ==> !Before(NextOccurrence(s[i].1.birthDate, today).value, next.date))
      && (exists i :: 0 <= i < |s| && NextOccurrence(s[i].1.birthDate, today) == Some(next.date))
      && next.users == TiedOn(Occurrences(s, today).value, next.date)
      && (forall u :: u in next.users ==> u in Keys(s))
  {
    var occ := Occurrences(s, today).value;
    SoonestIsEarliest(occ);
    var next := SoonestOf(occ);
    TiedOnKeys(s, occ, next.date);
    forall i | 0 <= i < |s|
      ensures !Before(NextOccurrence(s[i].1.birthDate, today).value, next.date)
    {
      assert NextOccurrence(s[i].1.birthDate, today) == Some(occ[i].1);
    }
    var j :| 0 <= j < |occ| && occ[j].1 == next.date;
    assert NextOccurrence(s[j].1.birthDate, today) == Some(next.date);
  }

  /** Every user tied on a date is a key of the store the list came from. */
  lemma TiedOnKeys(s: Store, occ: seq<(UserId, Date)>, d: Date)
    requires |occ| == |s| && forall i :: 0 <= i < |s| ==> occ[i].0 == s[i].0
    ensures forall u :: u in TiedOn(occ, d) ==> u in Keys(s)
  {
    forall u | u in TiedOn(occ, d)
      ensures u in Keys(s)
    {
      var i :| 0 <= i < |occ| && occ[i] == (u, d);
      assert Keys(s)[i] == u;
    }
  }

  /** `strftime('%d')` followed by the source's collapse: a two-digit day
      containing a '0' is cut to its last character. */
  function DayText(day: nat): (t: string)
    requires 1 <= day <= 31
    ensures 1 <= |t| <= 2 && AllDigits(t)
  {
    var dd := Pad2(day);
    if '0' in dd then [dd[1]] else dd
  }

  /** The suffix chosen from the last and first characters of the day text. */
  function Suffix(t: string): string
    requires 1 <= |t| && AllDigits(t)
  {
    var last, first := DigitValue(t[|t| - 1]), DigitValue(t[0]);
    if last == 1 && first != 1 then "st"
    else if last == 2 && first != 1 then "nd"
    else if last == 3 && first != 1 then "rd"
    else "th"
  }

  /** The day as the reply spells it, e.g. "21st". */
  function RenderDay(day: nat): string
    requires 1 <= day <= 31
  {
    DayText(day) + Suffix(DayText(day))
  }

  /** The usual English ordinal of a day, for comparison. */
  function EnglishOrdinal(n: nat): string {
    NatToString(n) +
      if 11 <= n % 100 <= 13 then "th"
      else if n % 10 == 1 then "st"
      else if n % 10 == 2 then "nd"
      else if n % 10 == 3 then "rd"
      else "th"
  }

  /** The rendering is the English ordinal except on the 1st, 10th, 20th
      and 30th, which come out as "1th" and "0th". */
  lemma RenderDayAgainstEnglish(day: nat)
    requires 1 <= day <= 31
    ensures RenderDay(day) == EnglishOrdinal(day) <==> day !in {1, 10, 20, 30}
    ensures day == 1 ==> RenderDay(day) == "1th"
    ensures day in {10, 20, 30} ==> RenderDay(day) == "0th"
  {
    if day < 10 {
      RenderSingleDigit(day);
    } else if day % 10 == 0 {
      RenderTens(day);
    } else {
      RenderTwoDigits(day);
    }
  }

  /** Days 1 to 9: the zero of "01" is dropped, leaving the digit itself. */
  lemma RenderSingleDigit(day: nat)
    requires 1 <= day <= 9
    ensures RenderDay(day) == EnglishOrdinal(day) <==> day != 1
    ensures day == 1 ==> RenderDay(day) == "1th"
  {
    assert Pad2(day)[0] == '0';
    assert DayText(day) == [DigitChar(day)] == NatToString(day);
    assert Suffix(DayText(day)) == if day == 1 then "th" else if day == 2 then "nd" else if day == 3 then "rd" else "th";
    if day == 1 {
      assert RenderDay(day)[2] != EnglishOrdinal(day)[2];
    }
  }

  /** Days 10, 20 and 30: only the trailing zero survives. */
  lemma RenderTens(day: nat)
    requires 10 <= day <= 31 && day % 10 == 0
    ensures RenderDay(day) == "0th" && RenderDay(day) != EnglishOrdinal(day)
  {
    assert Pad2(day)[1] == '0';
    assert DayText(day) == "0";
    NatToStringLength(day);
    assert |RenderDay(day)| != |EnglishOrdinal(day)|;
  }

  /** The other two-digit days render as the English ordinal. */
  lemma RenderTwoDigits(day: nat)
    requires 10 <= day <= 31 && day % 10 != 0
    ensures RenderDay(day) == EnglishOrdinal(day)
  {
    assert '0' !in Pad2(day);
    assert NatToString(day) == NatToString(day / 10) + [DigitChar(day % 10)];
    assert NatToString(day / 10) == [DigitChar(day / 10)];
    assert DayText(day) == NatToString(day);
    assert DigitValue(DayText(day)[0]) == day / 10;
    assert DigitValue(DayText(day)[1]) == day % 10;
  }

  /** 11th to 13th take "th" although they end in 1, 2 and 3. */
  lemma RenderDayTeens()
    ensures RenderDay(11) == "11th" && RenderDay(12) == "12th" && RenderDay(13) == "13th"
  {
    RenderTwoDigits(11);
    RenderTwoDigits(12);
    RenderTwoDigits(13);
  }

  /** The single-digit days that take "nd" and "rd". */
  lemma RenderDayExamples()
    ensures RenderDay(2) == "2nd" && RenderDay(3) == "3rd"
  {
    RenderSingleDigit(2);
    RenderSingleDigit(3);
  }

  /** The two-digit days that take "st" and "nd". */
  lemma RenderDayLateMonth()
    ensures RenderDay(21) == "21st" && RenderDay(22) == "22nd" && RenderDay(31) == "31st"
  {
    RenderTwoDigits(21);
    RenderTwoDigits(22);
    RenderTwoDigits(31);
  }

  const NoUsersMessage: string :=
    "There doesn't appear to be any users in the system please check that at least one user has added their birthday."

  /** "A and B both", "A, B, C all", or the one name. */
  function Group(names: seq<string>): string
    requires |names| > 1
  {
    if |names| > 2 then Join(names, ", ") + " all" else Join(names, " and ") + " both"
  }

  /** The reply naming the users due on date d. */
  function NextMessage(names: seq<string>, d: Date): string
    requires |names| > 0 && ValidDate(d)
  {
    var when := RenderDay(d.day) + " of " + MonthName(d.month);
    if |names| > 1 then BusyDayLead + Group(names) + SharedDateLead + when + "!"
    else OneUserLead + names[0] + " on " + when + "!"
  }

  /** The opening of the reply naming one user. */
  const OneUserLead: string := "The next birthday is "
  /** The opening of the reply naming several users. */
  const BusyDayLead: string := "The next birthday is a busy one! "
  /** What joins the group of names to the date, in the several-user reply. */
  const SharedDateLead: string := " have their birthdays on "

  /** The usernames of store keys, looked up in the store: each name is the
      `username` of an entry the store holds for that id. */
  function Usernames(s: Store, ids: seq<UserId>): (names: seq<string>)
    requires forall u :: u in ids ==> u in Keys(s)
    ensures |names| == |ids|
    ensures forall i :: 0 <= i < |ids| ==>
      exists j :: 0 <= j < |s| && s[j].0 == ids[i] && s[j].1.username == names[i]
  {
    var names := seq(|ids|, i requires 0 <= i < |ids| => Find(s, ids[i]).value.username);
    NamesInStore(s, ids, names);
    names
  }

  /** Names looked up one by one each come from an entry for their id. */
  lemma NamesInStore(s: Store, ids: seq<UserId>, names: seq<string>)
    requires forall u :: u in ids ==> u in Keys(s)
    requires |names| == |ids| && forall i :: 0 <= i < |ids| ==> names[i] == Find(s, ids[i]).value.username
    ensures forall i :: 0 <= i < |ids| ==>
      exists j :: 0 <= j < |s| && s[j].0 == ids[i] && s[j].1.username == names[i]
  {
    forall i | 0 <= i < |ids|
      ensures exists j :: 0 <= j < |s| && s[j].0 == ids[i] && s[j].1.username == names[i]
    {
      var j := FindEntry(s, ids[i]);
      assert s[j].0 == ids[i] && s[j].1.username == names[i];
    }
  }

  /** The text `!next` sends; Failure where the command raises and sends nothing. */
  function NextReply(s: Store, today: Date): (r: Result<string, NextError>)
    requires ValidDate(today)
    ensures r.Failure? <==> exists i :: 0 <= i < |s| && NextOccurrence(s[i].1.birthDate, today).None?
    ensures |s| == 0 ==> r == Success(NoUsersMessage)
  {
    match Resolve(s, today)
    case Failure(e) => Failure(e)
    case Success(None) => Success(NoUsersMessage)
    case Success(Some(next)) =>
      ResolveNamesTies(s, today);
      Success(NextMessage(Usernames(s, next.users), next.date))
  }

  /** Join with two names is "A sep B"; with more, the first name, sep, and the rest. */
  lemma JoinShapes(names: seq<string>, sep: string)
    requires |names| >= 2
    ensures |names| == 2 ==> Join(names, sep) == names[0] + sep + names[1]
    ensures Join(names, sep) == names[0] + sep + Join(names[1..], sep)
  {
  }

  /** One name: the singular form. */
  lemma NextMessageOne(names: seq<string>, d: Date)
    requires |names| == 1 && ValidDate(d)
    ensures NextMessage(names, d) ==
      "The next birthday is " + names[0] + " on " + RenderDay(d.day) + " of " + MonthName(d.month) + "!"
  {
  }

  /** Two names: "A and B both". */
  lemma NextMessageTwo(names: seq<string>, d: Date)
    requires |names| == 2 && ValidDate(d)
    ensures NextMessage(names, d) ==
      "The next birthday is a busy one! " + (names[0] + " and " + names[1] + " both")
      + " have their birthdays on " + RenderDay(d.day) + " of " + MonthName(d.month) + "!"
  {
    JoinShapes(names, " and ");
    assert Group(names) == names[0] + " and " + names[1] + " both";
  }

  /** Three names: "A, B, C all". */
  lemma NextMessageThree(names: seq<string>, d: Date)
    requires |names| == 3 && ValidDate(d)
    ensures NextMessage(names, d) ==
      "The next birthday is a busy one! " + (names[0] + ", " + names[1] + ", " + names[2] + " all")
      + " have their birthdays on " + RenderDay(d.day) + " of " + MonthName(d.month) + "!"
  {
    JoinShapes(names, ", ");
    JoinShapes(names[1..], ", ");
    assert Join(names, ", ") == names[0] + ", " + (names[1] + ", " + names[2]);
    assert Group(names) == names[0] + ", " + names[1] + ", " + names[2] + " all";
  }
}
