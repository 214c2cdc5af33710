# Birthday bot: a Dafny model of its birthday engine

The bot keeps a dictionary of registered birthdays (`birthday_dict`). It answers
`!add`, `!next`, `!delete` and `!help` in a Discord channel. Once a second a timer
(`checkTime`) checks whether it is 07:00:00. At that moment it posts a greeting,
with a GIF, for everyone whose birthday is today. This project models that engine
with immutable values and pure functions. Discord, Tenor, the file system and the
clock become inputs and outputs.

Modules, leaves first:

- `Wrappers`: `Option` and `Result`. These stand for the places where Python raises.
- `Chat`: a posted message (text plus optional embed image) and the `<@id>` mention.
- `Text`: decimal rendering and reading, zero padding, `join`, ASCII `lower` and
  `startswith`.
- `Dates`: `datetime.date` over years 1..9999, with chronological order and
  `replace(year=…)`. `replace` fails for 29 February in a common year.
- `DateText`: the two text forms of a date. `strptime(text, '%d/%m/%Y')` reads user
  input. `strftime('%Y, %m, %d')` writes the persisted form, and `strptime` reads it
  back. Each directive is modelled by the regular expression Python's `_strptime`
  uses for it: `%d`, `%m`, a four-digit `%Y`, and `\s+` for the space in the format.
- `Assoc`: Python's insertion-ordered `dict` as a list of entries. Assignment keeps a
  present key in place and appends a new one. `del` raises KeyError for an absent key.
  A map view (`ToMap`) is the reference the list operations are proved against.
- `RecordStore`: the store of `{username, birth_date}` records. It also holds the
  conversions done before `json.dump` and after `json.load`.
- `NextBirthday`: `!next`. For each user, the next birthday strictly after today. The
  list is stably sorted. The soonest date is taken together with every user tied on
  it. The reply text is then built.
- `Daily`: the tick as a transition over (`birthday_check`, `birth_today_list`), and
  the announcement `birthday_gif`.
- `Commands`: prefix dispatch in `on_message` and the `!add`, `!delete`, `!help`
  handlers.

Behaviour of the code that the model keeps on purpose:

- The day in `!next` is rendered literally. `'%d'` gives two digits. A day containing
  '0' is cut to its last character. The suffix then tests the last and first
  characters. So the 1st renders as "1th" and the 10th, 20th and 30th as "0th".
  `NextBirthday.RenderDayAgainstEnglish` proves that these four days are the only ones
  that differ from the usual English ordinal.
- Ages are the current year minus the birth year, with no month or day adjustment.
- A 29 February record makes `replace(year=…)` raise in a common year. `!next` then
  sends nothing. The 07:00:00 tick raises at that record, before the flag is set, so
  on any day of a common year nobody at all is greeted, whoever's birthday it is.
- Every tick clears the match list before anything else. After a failed GIF search,
  the next tick that does get a GIF only clears the flag and posts nothing.

Further behaviour of the code that the model keeps:

- The next occurrence of a 29 February birthday is undefined in most years: the
  code raises instead of choosing 28 February or 1 March.
- `!delete` of an unregistered user raises KeyError and posts nothing.
- There is no per-day "announced" latch, only a flag that is set at the exact
  second 07:00:00 and reset by the announcement.

## Model

| member | source | states |
|---|---|---|
| Dates.ReplaceYear | birthday_bot.py:127-133 | `replace(year=y)` keeps month and day, and gives a valid date in year y; for a valid date it fails exactly when y is outside 1..9999 or the date is 29 February and y is a common year |
| DateText.ParseDmy | birthday_bot.py:91 | `strptime(reply, '%d/%m/%Y')`: whatever the text, a date it accepts is a real date in years 1..9999; None stands for the ValueError |
| DateText.ParseDmyFields | birthday_bot.py:91 | text split by its two slashes is read field by field: `%d` from the day part, `%m` from the month part, `%Y` from the rest |
| DateText.ParseFormatDmy | birthday_bot.py:91 | every valid date written as DD/MM/YYYY is read back by the `'%d/%m/%Y'` parser as that same date |
| DateText.ParseDmyRejects31February | birthday_bot.py:89-91 | the input "31/02/2000" is refused by the parser |
| DateText.ParseDmyLeapDay | birthday_bot.py:91 | 29/02/YYYY is accepted exactly when YYYY is a leap year |
| DateText.ParseStored | birthday_bot.py:40 | `strptime(text, '%Y, %m, %d')`: whatever the text, a date it accepts is a real date in years 1..9999; None stands for the ValueError |
| DateText.ParseStoredSeparators | birthday_bot.py:40 | the space after each comma in the format matches any `\s` character, including the ASCII separators 28 to 31: `"2000,\x1c01,\x1f05"` reads as 5 January 2000 |
| DateText.ParseFormatStored | birthday_bot.py:40-41 | a date written in the persisted `'%Y, %m, %d'` form with a four-digit year reads back as the identical date, for every valid date |
| DateText.AsWrittenRoundTripFrom1000 | birthday_bot.py:101-102 | from year 1000 on, the C library's `%Y` rendering is the four-digit one, and the persisted date reads back unchanged |
| DateText.AsWrittenShortYearUnreadable | birthday_bot.py:102 | below year 1000 the unpadded `%Y` rendering is not accepted by the reading `strptime` at line 40 |
| DateText.AsWrittenYear999 | birthday_bot.py:40-41 | 1 January 999 is saved as "999, 01, 01", and that text does not parse |
| Assoc.Add | birthday_bot.py:95 | assignment sets the key's value and keeps an existing key's position (else appends it); every other key's value is unchanged |
| Assoc.AddIsMapUpdate | birthday_bot.py:95 | assignment in the ordered list is the dictionary update `m[k := v]` |
| Assoc.AddAppends | birthday_bot.py:95 | a new key is appended at the end |
| Assoc.AddInPlace | birthday_bot.py:95 | an existing key's entry is replaced at its own index, and nothing else moves |
| Assoc.Delete | birthday_bot.py:298 | `del` fails with KeyError exactly when the key is absent; otherwise exactly one entry goes and every other key keeps its value |
| Assoc.DeleteKeys | birthday_bot.py:298 | after `del` the key is gone, and the remaining keys keep their order and stay distinct |
| Assoc.DeleteIsMapRemove | birthday_bot.py:298 | `del` on the ordered list is removal of the key from the dictionary |
| Assoc.FindIsMapLookup | birthday_bot.py:157 | `birthday_dict[u]` on the list reads the dictionary the list denotes |
| RecordStore.Save | birthday_bot.py:101-102 | saving keeps the ids, names and order, and writes each date in the persisted text form |
| RecordStore.AddWellFormed | birthday_bot.py:95 | registering a valid date keeps the ids distinct and every date valid |
| RecordStore.DeleteWellFormed | birthday_bot.py:298 | deleting a registered user succeeds and keeps the store well-formed |
| RecordStore.ParseEach | birthday_bot.py:39-41 | the conversion loop parses every entry in order; it fails exactly when some entry does not parse, and then names such an entry |
| RecordStore.ParseAll | birthday_bot.py:39-41 | loading keeps ids, names and order and parses each date; it fails exactly when some date text is unreadable |
| RecordStore.CollapseDistinctKeys | birthday_bot.py:36 | `json.load` keeps one member per id, however many times the file repeats it |
| RecordStore.LoadWellFormed | birthday_bot.py:33-41 | a file that loads gives a store with distinct ids and real dates, the starting point every command's precondition needs |
| RecordStore.CollapseDistinct | birthday_bot.py:36 | a file with distinct ids loads as written: repeated-key merging changes nothing |
| RecordStore.LoadSave | birthday_bot.py:98-107 | loading what was saved gives back the same store, order included |
| NextBirthday.NextOccurrence | birthday_bot.py:125-133 | the next birthday is a valid date strictly after today, with the birth month and day, in this year or the next |
| NextBirthday.NextOccurrenceIsFirst | birthday_bot.py:127-133 | no valid date with the birth month and day falls after today but before the computed next birthday |
| NextBirthday.NextOccurrenceDefined | birthday_bot.py:127-133 | only a 29 February birthday, or a today in year 9999, can make the computation raise |
| NextBirthday.BirthdayTodayRollsOver | birthday_bot.py:129-133 | a birthday falling exactly today is next due on the same day next year |
| NextBirthday.LeapDayBirthday | birthday_bot.py:127-133 | a 29 February birthday resolves exactly when this year is a leap year and today is before 29 February |
| NextBirthday.NextOccurrenceExamples | birthday_bot.py:125-133 | 15/03/1990 is next due on 15/03/2024 when seen from 14/03/2024, and on 15/03/2025 when seen from 15/03/2024 |
| NextBirthday.Occurrences | birthday_bot.py:125-133 | one (user, next birthday) pair per record in store order; it fails exactly when some record's `replace` raises |
| NextBirthday.Insert | birthday_bot.py:138 | one insertion step of the sort adds exactly the new entry to the list's contents |
| NextBirthday.SortByDate | birthday_bot.py:138 | the sort is a permutation of its input |
| NextBirthday.SortByDateSorted | birthday_bot.py:138 | the sorted list is in non-decreasing date order |
| NextBirthday.TiedOnSorted | birthday_bot.py:138-150 | because the sort is stable, the users on a date in the sorted list come out in the original (insertion) order |
| NextBirthday.SoonestIsEarliest | birthday_bot.py:138-150 | the first sorted date is one of the dates and no date is earlier; the tied users are exactly those due on it, in insertion order, and there is at least one |
| NextBirthday.Resolve | birthday_bot.py:125-150 | `!next` fails exactly when some `replace` raises; otherwise it finds no soonest date exactly when the store is empty |
| NextBirthday.ResolveNamesTies | birthday_bot.py:136-150 | the users named are exactly those whose next birthday is the minimum, in insertion order; nobody's next birthday is sooner; every user named has a record, so the name lookup at line 157 cannot raise |
| NextBirthday.RenderDayAgainstEnglish | birthday_bot.py:142-183 | the rendered day equals the English ordinal except on days 1, 10, 20 and 30, which render as "1th" and "0th" |
| NextBirthday.RenderSingleDigit | birthday_bot.py:142-181 | for days 1 to 9 the zero is dropped; the rendering matches English exactly when the day is not 1, and the 1st renders as "1th" |
| NextBirthday.RenderTens | birthday_bot.py:142-181 | the 10th, 20th and 30th all render as "0th", which is not their English ordinal |
| NextBirthday.RenderTwoDigits | birthday_bot.py:142-181 | every other two-digit day renders as its English ordinal |
| NextBirthday.RenderDayTeens | birthday_bot.py:142-181 | the 11th, 12th and 13th take "th" because their first digit is 1 |
| NextBirthday.RenderDayExamples | birthday_bot.py:142-181 | the 2nd and 3rd render as "2nd" and "3rd" |
| NextBirthday.RenderDayLateMonth | birthday_bot.py:142-179 | the 21st, 22nd and 31st render as "21st", "22nd" and "31st" |
| NextBirthday.NextMessageOne | birthday_bot.py:172-183 | one user gives "The next birthday is {user} on {day} of {month}!" |
| NextBirthday.NextMessageTwo | birthday_bot.py:153-171 | two users give the busy-day form with "A and B both" |
| NextBirthday.NextMessageThree | birthday_bot.py:153-171 | three users give the busy-day form with "A, B, C all" |
| NextBirthday.Usernames | birthday_bot.py:154-157 | one name per id, in order; each name is the `username` of an entry the store holds for that id |
| NextBirthday.NextReply | birthday_bot.py:114-188 | an empty store gives the "There doesn't appear to be any users…" reply; the command fails exactly when some `replace` raises |
| Daily.ScanToday | birthday_bot.py:208-212 | with no raising `replace`, the list is exactly the users born on today's month and day, in store order; it raises exactly when some record's `replace` raises |
| Daily.BornOnDistinct | birthday_bot.py:208-212 | when the store holds one entry per user, the list of today's matches names nobody twice |
| Daily.ScanStopsAtFirstRaise | birthday_bot.py:208-212 | when record k is the first to raise, the list holds only the matches before k |
| Daily.MatchPhase | birthday_bot.py:196-218 | every tick clears the list; only at "07:00:00" is it refilled with today's matches, and the flag set iff there are any; a raise leaves the flag as it was |
| Daily.Announce | birthday_bot.py:241-261 | 0 users: no message; 1 or 2 users: exactly one message (the GIF embedded for one, inline for two); n > 2 users: n messages, one per user with that user's age (`Age`: the current year minus the birth year), then one carrying only the GIF |
| Daily.Tick | birthday_bot.py:196-224 | one `checkTime` run, for all inputs: the list only names store users, is non-empty only after the 07:00:00 match phase, and a tick that posts leaves both globals reset (its outcomes in detail: OffTriggerTick and TriggerTick) |
| Daily.OffTriggerTick | birthday_bot.py:196-224 | away from 07:00:00 a tick posts nothing and leaves an empty list; the flag survives only if it was set and the GIF search failed |
| Daily.TriggerTick | birthday_bot.py:202-265 | at 07:00:00 with no raise: no matches leaves the initial state; with matches and a GIF they are announced and both globals reset; with a failed search both are left set |
| Daily.LeapDayRecordStopsTrigger | birthday_bot.py:208-212 | a 29 February record in a common year makes the 07:00:00 tick post nothing; the flag is unchanged and later users are not matched |
| Daily.RunOffTriggerSilent | birthday_bot.py:190-224 | ticks that all miss 07:00:00 post nothing |
| Daily.RunStepsOnlyOneSpeaks | birthday_bot.py:190-224 | when every tick but one posts nothing whatever the state, a run's messages are exactly that tick's messages |
| Daily.DayAnnouncesOnce | birthday_bot.py:190-224 | over ticks with distinct clock readings, the only messages of the run are those of the single 07:00:00 tick |
| Daily.FailedFetchLosesAnnouncement | birthday_bot.py:196-290 | after a failed search the next tick with a GIF clears the flag and posts nothing |
| Commands.Triggered | birthday_bot.py:60-70 | a handler runs exactly when the lower-cased text starts with its command word |
| Commands.KeywordsExclusive | birthday_bot.py:60-70 | no text starts with two different command words |
| Commands.AtMostOneCommand | birthday_bot.py:60-70 | no message runs more than one handler |
| Commands.MixedCaseNext | birthday_bot.py:63 | "!NeXt please" runs `!next` and nothing else |
| Commands.CommandMustLead | birthday_bot.py:60-70 | text that does not start with '!' runs no handler |
| Commands.AddCommand | birthday_bot.py:72-110 | the bot's own message is ignored; an unparsable reply gives the prompt and the format error, with no change and no save; a parsed reply gives the prompt and thanks, and the new store is saved |
| Commands.AddRegisters | birthday_bot.py:89-96 | the store changes only when the reply parses; then the author's record is set, kept in place or appended, and every other user's record is untouched |
| Commands.AddRejects31February | birthday_bot.py:89-110 | `!add` answered with "31/02/2000" posts the error and leaves the store unchanged |
| Commands.AddSurvivesRestart | birthday_bot.py:98-107 | after a successful `!add`, the saved file loads back to the new store |
| Commands.DeleteCommand | birthday_bot.py:293-310 | `!delete` fails exactly when the author has no record; otherwise it removes only the author's record, keeps the others in order, confirms, and saves |
| Commands.Handle | birthday_bot.py:60-70 | every handler keeps the store well-formed, and only the `!add` and `!delete` handlers can change it |
| Commands.OnMessage | birthday_bot.py:50-70 | text that selects no handler changes nothing and posts nothing; the store changes only when the lower-cased text starts with `!add` or `!delete` |

## Left out

- The Discord client and its events: the channel, `channel.send`, `client.get_channel`, `on_ready`. Posting is modelled as the returned list of messages. An embed is a message with an image.
- The `wait_for` conversation in `!add`. The author's next message is an input (`reply`). Any timeout or interleaving with other messages is not modelled.
- `threading.Timer` and `run_coroutine_threadsafe`, because they are concurrency. A tick is one pure transition, and a day is a given sequence of ticks. Whether the drifting one-second timer actually sees the reading "07:00:00" is outside the model.
- Concurrent `!delete` while `birthday_gif` is awaiting a send, because that is concurrency. It would make the lookup raise KeyError. `Daily.Announce` requires every listed user to be in the store. This always holds within one tick.
- The Tenor HTTP request and `random.choice`, because they are a network call and randomness. The search outcome is an input: a URL or a failure.
- Reading and writing `birthday_dict.json`, the JSON encoding and `os.path`, because they are file I/O. Only the per-date text format and the record conversion loops are modelled. A write failure inside `!add`'s `try` is not modelled. It would post the format error after the store had already changed.
- `datetime.now()` and `datetime.today()`, because they read the clock. The time string and today's date are inputs.
- `%B` depends on the locale. A fixed English month table is used.
- Unicode: `str.lower` is modelled on ASCII only. Python's `\d` and `\s` also accept non-ASCII digits and whitespace (such as U+0085 and U+00A0). The parsers model the ASCII ones only.
- A GIF search that takes longer than the one-second timer: the next tick empties `birth_today_list` before `birthday_gif` reads it, and the announcement is lost. Each tick is one atomic step here, so the model never shows this.
- Daily.DayAnnouncesOnce: it states that only the 07:00:00 tick posts. It does not itself say that the tick's list names each user once. `Daily.BornOnDistinct` states that separately, for a store with one entry per user.
- RecordStore.Save: it writes `%Y` with four digits. On Linux the program writes years below 1000 unpadded, and such a file does not load again (see Findings). `FormatStoredAsWritten` models that rendering.
- RecordStore.LoadSave: the round trip holds for the four-digit `Save`. For the program as written it holds only when every year is 1000 or later (`DateText.AsWrittenRoundTripFrom1000`).
- Commands.AddSurvivesRestart: it rests on the four-digit `Save`. On Linux a birthday before year 1000 registered with `!add` makes the saved file unreadable.
- Environment and token loading, and `print`.
- Daily.Announce: the contract fixes the number of messages, where the GIF goes and the per-user lines of the many-user case. The exact texts of the one- and two-user messages are given only by its body.
- NextBirthday.NextReply: the contract states the empty-store reply and the failure condition. The wording for one, two and three users is stated by `NextMessageOne`, `NextMessageTwo` and `NextMessageThree` about the message it builds.

## Findings

| source | as written | input that shows it | evidently intended | confidence | as-written member | corrected member |
|---|---|---|---|---|---|---|
| birthday_bot.py:102 | the date is saved with `strftime('%Y, %m, %d')`. The C library on Linux writes years below 1000 without padding, but the `%Y` of the reading `strptime` (line 40) needs exactly four digits | the birthday 01/01/0999 is accepted by `!add` and saved as "999, 01, 01". Reading it fails, so the bot cannot start again | every saved date reads back | low, not executed; depends on the platform's `%Y` | DateText.AsWrittenShortYearUnreadable | DateText.ParseFormatStored |

The store's `Save` uses the four-digit form `DateText.FormatStored`.
`DateText.FormatStoredAsWritten` is the Linux rendering.
