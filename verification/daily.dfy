/** The once-a-second `checkTime` tick and the `birthday_gif` announcement,
    as a pure transition over the pair (`birthday_check`, `birth_today_list`).
    The clock reading, today's date, the store and the outcome of the GIF
    search are inputs of each tick. */
module Daily {
  import opened Wrappers
  import opened Seqs
  import opened Text
  import opened Dates
  import opened Assoc
  import opened RecordStore
  import opened Chat

  /** The wall-clock time, as `strftime('%H:%M:%S')`, at which matches are computed. */
  const TriggerTime: string := "07:00:00"

  /** The two globals the tick and the announcement share. */
  datatype TickState = TickState(birthdayCheck: bool, todayList: seq<UserId>)

  /** The values the globals start with. */
  const Initial: TickState := TickState(false, [])

  /** The GIF search: a URL, or a failure (a non-200 reply leaves `gif_url`
      unbound, an empty result list makes `random.choice` raise). */
  datatype GifFetch = Fetched(url: string) | FetchFailed

  /** What one tick leaves behind and the messages it posted. */
  datatype TickResult = TickResult(state: TickState, sent: seq<Message>)

  /** The users, in store order, born on today's month and day. */
  function BornOn(s: Store, today: Date): (users: seq<UserId>)
    ensures forall u :: u in users ==> u in Keys(s)
  {
    if s == [] then []
    else
      var rest := BornOn(s[1..], today);
      assert Keys(s) == [s[0].0] + Keys(s[1..]);
      if SameDayOfYear(s[0].1.birthDate, today) then [s[0].0] + rest else rest
  }

  /** In a store with one entry per user, nobody is matched twice. */
  lemma {:induction false} BornOnDistinct(s: Store, today: Date)
    requires DistinctKeys(s)
    ensures forall i, j :: 0 <= i < j < |BornOn(s, today)| ==> BornOn(s, today)[i] != BornOn(s, today)[j]
  {
    if s != [] {
      var rest := BornOn(s[1..], today);
      DistinctTail(s);
      BornOnDistinct(s[1..], today);
      assert s[0].0 !in Keys(s[1..]) by {
        forall i | 0 <= i < |s| - 1
          ensures Keys(s[1..])[i] != s[0].0
        {
          assert Keys(s[1..])[i] == s[i + 1].0;
        }
      }
      if SameDayOfYear(s[0].1.birthDate, today) {
        var b := [s[0].0] + rest;
        forall i, j | 0 <= i < j < |b|
          ensures b[i] != b[j]
        {
          if i == 0 {
            assert b[j] == rest[j - 1] && b[j] in rest;
          } else {
            assert b[i] == rest[i - 1] && b[j] == rest[j - 1];
          }
        }
      }
    }
  }

  /** How far the matching loop got: the users appended to the list, and
      whether a `replace(year=...)` raised and ended the tick. */
  datatype Scan = Scan(matches: seq<UserId>, raised: bool)

  /** The loop at the trigger time: each record's birthday moved to this
      year is compared with today; the list is appended to as it goes. */
  function ScanToday(s: Store, today: Date): (r: Scan)
    ensures !r.raised <==> forall i :: 0 <= i < |s| ==> ReplaceYear(s[i].1.birthDate, today.year).Some?
    ensures !r.raised ==> r.matches == BornOn(s, today)
    ensures forall u :: u in r.matches ==> u in Keys(s)
  {
    if s == [] then Scan([], false)
    else
      assert Keys(s) == [s[0].0] + Keys(s[1..]);
      match ReplaceYear(s[0].1.birthDate, today.year)
      case None => Scan([], true)
      case Some(thisYear) =>
        var rest := ScanToday(s[1..], today);
        assert forall i :: 1 <= i < |s| ==> s[i] == s[1..][i - 1];
        Scan((if thisYear == today then [s[0].0] else []) + rest.matches, rest.raised)
  }

  /** When the k-th record is the first whose `replace` raises, the list
      holds the matches before it, and the records after it are never
      looked at. */
  lemma {:induction false} ScanStopsAtFirstRaise(s: Store, today: Date, k: nat)
    requires k < |s| && ReplaceYear(s[k].1.birthDate, today.year).None?
    requires forall i :: 0 <= i < k ==> ReplaceYear(s[i].1.birthDate, today.year).Some?
    ensures ScanToday(s, today) == Scan(BornOn(s[..k], today), true)
  {
    if k > 0 {
      ScanStopsAtFirstRaise(s[1..], today, k - 1);
      assert s[1..][..k - 1] == s[..k][1..];
    }
  }

  /** Python's `curr_year - birth_date.year`: no month or day adjustment. */
  function Age(s: Store, u: UserId, year: int): int
    requires u in Keys(s)
  {
    year - Find(s, u).value.birthDate.year
  }

  /** The line posted for each user when more than two share the day. */
  function CelebrantLine(u: UserId, age: int): string {
    "It is " + Mention(u) + MentionToAgeToday + IntToString(age) + " years old!"
  }

  /** What follows a celebrant's mention up to the age, in the one-user and
      many-user greetings. */
  const MentionToAgeToday: string := "'s birthday today and they are "
  /** What follows each mention up to the age, in the two-user greeting. */
  const MentionToAge: string := "'s birthday and they are "
  /** What follows the age in the one-user greeting. */
  const SoloSignOff: string := " years old! Happy birthday! :partying_face:"

  /** The messages `birthday_gif` posts for the list, once the GIF is known. */
  function Announce(users: seq<UserId>, s: Store, year: int, gif: string): (sent: seq<Message>)
    requires forall u :: u in users ==> u in Keys(s)
    ensures |users| == 0 ==> sent == []
    ensures 1 <= |users| <= 2 ==> |sent| == 1
    ensures |users| == 1 ==> sent[0].embedImage == Some(gif)
    ensures |users| == 2 ==> sent[0].embedImage.None?
    ensures |users| > 2 ==> |sent| == |users| + 1 && sent[|users|] == Plain(gif)
    ensures |users| > 2 ==> forall i :: 0 <= i < |users| ==>
      sent[i] == Plain(CelebrantLine(users[i], Age(s, users[i], year)))
  {
    if |users| == 1 then [SoloGreeting(users[0], Age(s, users[0], year), gif)]
    else if |users| == 2 then [PairGreeting(users[0], Age(s, users[0], year), users[1], Age(s, users[1], year), gif)]
    else if |users| > 2 then
      var lines := CelebrantLines(users, s, year);
      AppendOne(lines, Plain(gif));
      lines + [Plain(gif)]
    else []
  }

  /** The one-user greeting, with the GIF embedded. */
  function SoloGreeting(u: UserId, age: int, gif: string): (m: Message)
    ensures m.embedImage == Some(gif)
  {
    Message(":partying_face: It is " + Mention(u) + MentionToAgeToday + IntToString(age) + SoloSignOff, Some(gif))
  }

  /** The two-user greeting, with the GIF's address at the end of the text. */
  function PairGreeting(u1: UserId, age1: int, u2: UserId, age2: int, gif: string): (m: Message)
    ensures m.embedImage.None?
  {
    Plain("It is " + Mention(u1) + MentionToAge + IntToString(age1) + " years old, and " + Mention(u2) + MentionToAge
          + IntToString(age2) + " years old! " + gif)
  }

  function CelebrantLines(users: seq<UserId>, s: Store, year: int): seq<Message>
    requires forall u :: u in users ==> u in Keys(s)
  {
    seq(|users|, i requires 0 <= i < |users| => Plain(CelebrantLine(users[i], Age(s, users[i], year))))
  }

  /** The tail of `checkTime`: if the flag is set, run `birthday_gif`. A
      failed search raises before anything is posted or reset. */
  function RunIfSet(st: TickState, s: Store, today: Date, fetch: GifFetch): (r: TickResult)
    requires forall u :: u in st.todayList ==> u in Keys(s)
  {
    if !st.birthdayCheck then TickResult(st, [])
    else match fetch
      case FetchFailed => TickResult(st, [])
      case Fetched(url) => TickResult(Initial, Announce(st.todayList, s, today.year, url))
  }

  /** The first half of `checkTime`, up to the flag: the list is cleared;
      at the trigger time it is refilled with the users born on today's
      month and day, in store order, and the flag records whether there are
      any. A raising `replace` ends the tick with the list as far as it got
      and the flag untouched. */
  function MatchPhase(st: TickState, s: Store, time: string, today: Date): (r: (TickState, bool))
    ensures time != TriggerTime ==> r == (TickState(st.birthdayCheck, []), false)
    ensures time == TriggerTime && !r.1 ==> r.0 == TickState(BornOn(s, today) != [], BornOn(s, today))
    ensures time == TriggerTime && r.1 ==> r.0.birthdayCheck == st.birthdayCheck
    ensures r.1 <==> time == TriggerTime && exists i :: 0 <= i < |s| && ReplaceYear(s[i].1.birthDate, today.year).None?
    ensures forall u :: u in r.0.todayList ==> u in Keys(s)
  {
    if time == TriggerTime then
      var scan := ScanToday(s, today);
      if scan.raised then (TickState(st.birthdayCheck, scan.matches), true)
      else (TickState(|scan.matches| > 0, scan.matches), false)
    else (TickState(st.birthdayCheck, []), false)
  }

  /** One run of `checkTime`: the match phase, then, unless it raised, the
      announcement if the flag is set. Whatever the inputs, the list only
      names users of the store, it is non-empty only after the trigger
      time's match phase, and a tick that posts leaves both globals reset. */
  function Tick(st: TickState, s: Store, time: string, today: Date, fetch: GifFetch): (r: TickResult)
    ensures forall u :: u in r.state.todayList ==> u in Keys(s)
    ensures r.state.todayList != [] ==> time == TriggerTime
    ensures r.sent != [] ==> r.state == Initial
  {
    var (matched, raised) := MatchPhase(st, s, time, today);
    if raised then TickResult(matched, []) else RunIfSet(matched, s, today, fetch)
  }

  /** Away from the trigger time a tick posts nothing and leaves an empty
      list; the flag stays set only if it was set and the search failed. */
  lemma OffTriggerTick(st: TickState, s: Store, time: string, today: Date, fetch: GifFetch)
    requires time != TriggerTime
    ensures Tick(st, s, time, today, fetch).sent == []
    ensures Tick(st, s, time, today, fetch).state ==
      TickState(st.birthdayCheck && fetch.FetchFailed?, [])
  {
  }

  /** At the trigger time, when no `replace` raises, the list is exactly
      the users born on today's month and day, in store order, and the flag
      says whether there are any; with a GIF they are announced and both
      globals reset, without one both are left set. */
  lemma TriggerTick(st: TickState, s: Store, today: Date, fetch: GifFetch)
    requires forall i :: 0 <= i < |s| ==> ReplaceYear(s[i].1.birthDate, today.year).Some?
    ensures var matches := BornOn(s, today);
      var r := Tick(st, s, TriggerTime, today, fetch);
      && (matches == [] ==> r == TickResult(Initial, []))
      && (matches != [] && fetch.Fetched? ==>
            r == TickResult(Initial, Announce(matches, s, today.year, fetch.url)))
      && (matches != [] && fetch.FetchFailed? ==> r == TickResult(TickState(true, matches), []))
  {
  }

  /** A 29 February record in a common year makes the trigger tick raise:
      nothing is posted, the flag keeps its old value, and users stored
      after that record are never matched that day. */
  lemma LeapDayRecordStopsTrigger(st: TickState, s: Store, today: Date, fetch: GifFetch, k: nat)
    requires ValidDate(today) && !IsLeapYear(today.year)
    requires k < |s| && s[k].1.birthDate.month == 2 && s[k].1.birthDate.day == 29
    requires forall i :: 0 <= i < k ==> ReplaceYear(s[i].1.birthDate, today.year).Some?
    ensures Tick(st, s, TriggerTime, today, fetch) ==
      TickResult(TickState(st.birthdayCheck, BornOn(s[..k], today)), [])
  {
    ScanStopsAtFirstRaise(s, today, k);
  }

  /** A tick at a given moment, with the store and search outcome it sees. */
  datatype TickInput = TickInput(store: Store, time: string, today: Date, fetch: GifFetch)

  /** One tick as a step from state to state, with the messages posted. */
  function TickStep(st: TickState, t: TickInput): (TickState, seq<Message>) {
    var r := Tick(st, t.store, t.time, t.today, t.fetch);
    (r.state, r.sent)
  }

  /** Steps applied in turn from a starting state: the final state and every
      message posted, in order. */
  function RunSteps<S, I, M>(step: (S, I) -> (S, seq<M>), st: S, inputs: seq<I>): (S, seq<M>)
    decreases |inputs|
  {
    if inputs == [] then (st, [])
    else
      var first := step(st, inputs[0]);
      var rest := RunSteps(step, first.0, inputs[1..]);
      (rest.0, first.1 + rest.1)
  }

  /** A sequence of ticks. */
  function Run(st: TickState, ticks: seq<TickInput>): (TickState, seq<Message>) {
    RunSteps(TickStep, st, ticks)
  }

  /** Running a then b is running b from where a ended; the messages are
      a's followed by b's. */
  lemma {:induction false} RunStepsConcat<S, I, M>(step: (S, I) -> (S, seq<M>), st: S, a: seq<I>, b: seq<I>)
    ensures RunSteps(step, st, a + b).0 == RunSteps(step, RunSteps(step, st, a).0, b).0
    ensures RunSteps(step, st, a + b).1 == RunSteps(step, st, a).1 + RunSteps(step, RunSteps(step, st, a).0, b).1
    decreases |a|
  {
    if a == [] {
      assert a + b == b;
    } else {
      assert (a + b)[0] == a[0] && (a + b)[1..] == a[1..] + b;
      RunStepsConcat(step, step(st, a[0]).0, a[1..], b);
    }
  }

  /** Steps that post nothing from any state post nothing together. */
  lemma {:induction false} RunStepsSilent<S, I, M>(step: (S, I) -> (S, seq<M>), st: S, inputs: seq<I>)
    requires forall s: S, i :: 0 <= i < |inputs| ==> step(s, inputs[i]).1 == []
    ensures RunSteps(step, st, inputs).1 == []
    decreases |inputs|
  {
    if inputs != [] {
      assert step(st, inputs[0]).1 == [];
      RunStepsSilent(step, step(st, inputs[0]).0, inputs[1..]);
    }
  }

  /** Ticks that all miss the trigger time post nothing. */
  lemma RunOffTriggerSilent(st: TickState, ticks: seq<TickInput>)
    requires forall i :: 0 <= i < |ticks| ==> ticks[i].time != TriggerTime
    ensures Run(st, ticks).1 == []
  {
    forall s: TickState, i | 0 <= i < |ticks|
      ensures TickStep(s, ticks[i]).1 == []
    {
      var t := ticks[i];
      OffTriggerTick(s, t.store, t.time, t.today, t.fetch);
    }
    RunStepsSilent(TickStep, st, ticks);
  }

  /** Over ticks with pairwise different clock readings (one day of
      once-a-second ticks), the messages of the run are exactly those of
      tick k, the one at the trigger time. */
  lemma DayAnnouncesOnce(st: TickState, ticks: seq<TickInput>, k: nat)
    requires forall i, j :: 0 <= i < j < |ticks| ==> ticks[i].time != ticks[j].time
    requires k < |ticks| && ticks[k].time == TriggerTime
    ensures Run(st, ticks).1 == TickStep(Run(st, ticks[..k]).0, ticks[k]).1
  {
    forall s: TickState, i | 0 <= i < |ticks| && i != k
      ensures TickStep(s, ticks[i]).1 == []
    {
      var t := ticks[i];
      assert t.time != TriggerTime by {
        if i < k {
          assert ticks[i].time != ticks[k].time;
        } else {
          assert ticks[k].time != ticks[i].time;
        }
      }
      OffTriggerTick(s, t.store, t.time, t.today, t.fetch);
    }
    RunStepsOnlyOneSpeaks(TickStep, st, ticks, k);
  }

  /** When every step but the k-th posts nothing whatever the state, the
      messages of the run are those of the k-th step. */
  lemma RunStepsOnlyOneSpeaks<S, I, M>(step: (S, I) -> (S, seq<M>), st: S, inputs: seq<I>, k: nat)
    requires k < |inputs|
    requires forall s: S, i :: 0 <= i < |inputs| && i != k ==> step(s, inputs[i]).1 == []
    ensures RunSteps(step, st, inputs).1 == step(RunSteps(step, st, inputs[..k]).0, inputs[k]).1
  {
    var before, rest := inputs[..k], inputs[k..];
    SplitAt(inputs, k);
    RunStepsConcat(step, st, before, rest);
    SilentAround(step, inputs, k);
    RunStepsSilent(step, st, before);
    RunStepsFirstSpeaks(step, RunSteps(step, st, before).0, rest);
    assert rest[0] == inputs[k];
  }

  /** The silence of every step but the k-th, seen on the two slices. */
  lemma SilentAround<S, I, M>(step: (S, I) -> (S, seq<M>), inputs: seq<I>, k: nat)
    requires k < |inputs|
    requires forall s: S, i :: 0 <= i < |inputs| && i != k ==> step(s, inputs[i]).1 == []
    ensures forall s: S, i :: 0 <= i < k ==> step(s, inputs[..k][i]).1 == []
    ensures forall s: S, i :: 1 <= i < |inputs| - k ==> step(s, inputs[k..][i]).1 == []
  {
    forall s: S, i | 0 <= i < k
      ensures step(s, inputs[..k][i]).1 == []
    {
      assert inputs[..k][i] == inputs[i];
    }
    forall s: S, i | 1 <= i < |inputs| - k
      ensures step(s, inputs[k..][i]).1 == []
    {
      assert inputs[k..][i] == inputs[k + i];
    }
  }

  /** When every step after the first posts nothing, the messages of the
      run are those of the first step. */
  lemma RunStepsFirstSpeaks<S, I, M>(step: (S, I) -> (S, seq<M>), st: S, inputs: seq<I>)
    requires inputs != []
    requires forall s: S, i :: 1 <= i < |inputs| ==> step(s, inputs[i]).1 == []
    ensures RunSteps(step, st, inputs).1 == step(st, inputs[0]).1
  {
    var first := step(st, inputs[0]);
    forall s: S, i | 0 <= i < |inputs| - 1
      ensures step(s, inputs[1..][i]).1 == []
    {
      assert inputs[1..][i] == inputs[i + 1];
    }
    RunStepsSilent(step, first.0, inputs[1..]);
    assert RunSteps(step, st, inputs).1 == first.1 + [];
  }

  /** The retry the flag seems to promise never happens: after a failed
      search at the trigger time, the next tick that gets a GIF clears the
      flag and posts nothing, because every tick empties the list first. */
  lemma FailedFetchLosesAnnouncement(matches: seq<UserId>, s: Store, time: string, today: Date, url: string)
    requires time != TriggerTime
    ensures Tick(TickState(true, matches), s, time, today, Fetched(url)) == TickResult(Initial, [])
  {
  }
}
