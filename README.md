# HTB calendar feeds — event building

A model of the two calendar handlers of the HTB Discord service: the
machines feed and the challenges feed. Each handler does the same things in order:

- it reads every row of its table;
- it captures "now" once;
- it walks the rows in order and skips every row released strictly before
  that cutoff;
- for every other row it builds one event (title, begin, description), appends
  `"\nNotice: " + notice` when the stored notice for the item's name is truthy,
  and adds the event to the calendar.

The first row whose release date cannot be read aborts the whole handler, and
no partial calendar comes out.

- `wrappers.dfy`: `Option` and `Result`.
- `events.dfy` (module `Events`): one row. This covers the row layout, the parsed
  release date, the title and description formats, the notice lookup and its
  truthiness, and one pass of the loop body (`RowStep`).
- `calendar.dfy` (module `HtbCalendar`): the build. `BuildEvents` is the
  specification function: the events of a row sequence, or the error of its
  first bad row. The lemmas about it state the filter, the counts and the
  fail-fast rule. `Calendar` is the mutable event collection. `GenerateCalendar`
  is the imperative loop, proved equal to `BuildEvents`. Each table has its own
  instance of it.

Abstractions:

- Rows are `seq<string>`, each column as the text that the format string
  renders. Machines use columns `[id, name, os, difficulty, release_date]`.
  Challenges use `[id, name, difficulty, category, release_date]`.
- A release date is `DateTime(ticks, hasOffset)`. The ISO parser is a parameter
  `string -> Option<DateTime>`.
- "Now" is a parameter `now: int` that stands for the naive wall clock. It is
  passed once, so every row is compared with the same cutoff.
- The notices table is a `map<string, string>` from event name to notice text.

The model has three row errors, and each aborts the build. They are the
exceptions the loop body raises from the row's own data:

- a row with no column 4 (`IndexError`);
- a date that does not parse (`ValueError`);
- a date that carries a UTC offset. Comparing such an aware date with the naive
  `now` raises `TypeError` in Python.

Without a truthy notice, the code leaves the description unchanged. It does
not guarantee that the description lacks a `"\nNotice: …"` ending: the base
description can end that way when a column holds such text. The model
therefore states "unchanged" (`Events.WithNotice`, `Events.MakeEvent`).

The rows are a `seq` value, so the build cannot change them. The only state
that changes is the calendar's `events`.

## Model

Two definitions have no row of their own because they have no contract. They
are the reference definitions that the rows below are stated against.
`HtbCalendar.BuildEvents` is the loop of htb_calendar.py:53-68 and 88-103.
`Events.Truthy` is the `if notice:` test of htb_calendar.py:65 and 100.

| member | source | states |
|---|---|---|
| `Events.Title` | htb_calendar.py:59 | the title is the kind's prefix (`"Machine: "` / `"Challenge: "`) followed by the item's name, with nothing else |
| `Events.TitleInjective` | htb_calendar.py:59 | a title determines both the kind and the item name that produced it; this covers the machine prefix at the cited line and the challenge prefix at line 94 |
| `Events.BaseDescription` | htb_calendar.py:61 | machine: `"Difficulty: "` + column 3 + `", OS: "` + column 2; challenge: `"Difficulty: "` + column 2 + `", Category: "` + column 3 (the cited line and line 96) |
| `Events.FetchNotice` | htb_calendar.py:35-40 | the lookup yields a notice exactly when the name has one stored, and then it yields the stored text; otherwise it yields `None` |
| `Events.WithNotice` | htb_calendar.py:64-66 | the description starts with the base description; it differs from the base iff the notice is truthy (present and non-empty); when it differs, the rest is `"\nNotice: "` + notice |
| `Events.MakeEvent` | htb_calendar.py:58-66 | the event's name is the title of the row's name column; its begin is the parsed release date; its description is the base description, extended by `"\nNotice: "` + notice exactly when the notice looked up by the row's name is truthy |
| `Events.RowStep` | htb_calendar.py:54-68 | one loop pass fails iff the row is not well-formed, with the reason given by the first check the row fails (missing column, unparsable date, offset date); it skips the row iff the row is well-formed and released before the cutoff; it yields an event iff the row is upcoming, and that event is `MakeEvent` of the row |
| `HtbCalendar.PrefixFailurePersists` | htb_calendar.py:53-54 | once the rows up to some point abort, the whole build aborts with that same error |
| `HtbCalendar.BuildAbortsAtFirstMalformedRow` | htb_calendar.py:53-55 | the build fails iff some row, wherever it is, is not well-formed; the error names the first such row and that row's reason, and every earlier row is well-formed |
| `HtbCalendar.BuildCountsUpcoming` | htb_calendar.py:55-68 | a successful build has exactly as many events as there are rows released at or after the cutoff (strict `<` skips) |
| `HtbCalendar.BuildKeepsUpcoming` | htb_calendar.py:55-68 | every row released at or after the cutoff has its event in a successful build |
| `HtbCalendar.BuildOnlyUpcoming` | htb_calendar.py:55-56 | every event of a successful build is the event of some row released at or after the cutoff |
| `HtbCalendar.BuildIsUpcomingEvents` | htb_calendar.py:53-68 | a successful build's events are exactly the upcoming rows' events. Each upcoming row contributes its own event once, in row order, so equal rows give repeated events. It is stated against `UpcomingEvents`, a reference that walks the rows from the front |
| `HtbCalendar.NoEventBeforeCutoff` | htb_calendar.py:50-56 | every event of a successful build begins at or after the one cutoff captured before the loop |
| `HtbCalendar.PastRowHasNoEvent` | htb_calendar.py:54-56 | no event of a successful build carries the release date of a row released before the cutoff |
| `HtbCalendar.Calendar.constructor` | htb_calendar.py:48 | a new calendar has no events |
| `HtbCalendar.Calendar.Add` | htb_calendar.py:68 | adding an event appends it to the calendar's events and changes nothing else |
| `HtbCalendar.GenerateCalendar` | htb_calendar.py:48-68 | the loop returns a fresh calendar whose events are exactly `BuildEvents` of the rows, or the error `BuildEvents` gives, so every lemma above holds of it |
| `HtbCalendar.GenerateMachinesCalendar` | htb_calendar.py:48-68 | the machines handler returns exactly the machine events of `BuildEvents`, or its error |
| `HtbCalendar.GenerateChallengesCalendar` | htb_calendar.py:83-103 | the challenges handler returns exactly the challenge events of `BuildEvents`, or its error |
| `HtbCalendar.UpcomingMachineScenario` | htb_calendar.py:53-61 | the upcoming machine `Lame` (Linux, Easy) with no notice gives the single event `"Machine: Lame"` / `"Difficulty: Easy, OS: Linux"` |
| `HtbCalendar.PastMachineScenario` | htb_calendar.py:54-56 | the machine `Lame` dated `"2020-01-01T00:00:00"`, released before the cutoff, gives no event |
| `HtbCalendar.NoticeMachineScenario` | htb_calendar.py:64-66 | with the notice `"Retired soon"` stored for `Lame`, the description becomes `"Difficulty: Easy, OS: Linux\nNotice: Retired soon"` |

## Left out

- The Flask application, its routes and the `text/calendar` response (htb_calendar.py:4, 10, 42, 75, 77, 110, 113-114): these are web-framework plumbing.
- `fetch_from_db` and the SQL of `fetch_notice_for_event` (htb_calendar.py:19-40): these are sqlite I/O. The rows are an input sequence and the notices are a map. If several notices share one name, the query uses the first one. The model keeps one notice per name.
- Events.FetchNotice: a failing notice lookup is not modelled. At htb_calendar.py:64 and 99 the loop body opens the notices store and queries it (htb_calendar.py:35-38). That query can raise `sqlite3.OperationalError`, for example when the store has no `notices` table. Such an error aborts the handler like a bad row. The model's lookup is a total map lookup and never fails.
- A notice column holding SQL NULL, or holding a non-text value: a stored NULL reads as `None`, which is falsy. Other non-text values have their own truthiness. The model stores text notices only, and treats only the empty one as falsy.
- Non-text columns: every column is modelled as the text its format string renders. A non-text release date would raise `TypeError` in the parser. The model covers that only as a parse failure.
- `datetime.fromisoformat` and `datetime.now` (htb_calendar.py:50, 54, 85, 89): these are library parsing and the wall clock. The parser and "now" are parameters. `event.begin = release_date.isoformat()` is modelled as storing the parsed date.
- Serialising with `str(calendar)` (htb_calendar.py:73, 75) is done by the `ics` library. This includes the iCalendar escaping and line folding, so no render/parse round trip is stated.
- The `ics` library's `Calendar.events` set and the random uid it gives each event: the calendar is modelled as a sequence in insertion order.
- `generate_filename` (htb_calendar.py:13-16) uses random bytes and SHA-256, and writing the snapshot file (htb_calendar.py:71-73, 106-108) is file I/O. Both are left out.
- `event.description +=` (htb_calendar.py:66, 101) is modelled as an update of a local description before the event value is built. The `ics` `Event` object itself is not modelled as a mutable object.
