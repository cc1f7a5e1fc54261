# Zoom auto-launcher: meeting links and the schedule, in Dafny

`zoom_auto_launcher.py` opens recurring video meetings at their scheduled
times. One worker thread per configured meeting works out when the meeting
is next due and sleeps until then. It then opens the meeting, either in the
desktop application through a `zoommtg://` link or in a browser through the
web client. This project models the part of that program that is plain
computation, and proves what it does:

- **Meeting links** (`meeting_url.dfy`).
  - `extract_meeting_id`: the id after the last of the non-overlapping
    `/j/` occurrences that `split` finds left to right (or, without `/j/`,
    likewise for `/w/`), cut at the first `?`. With overlapping markers
    this is not the text after the last `/j/`: `x/j/j/5` gives `j/5`.
  - `build_webclient_url`: the `/wc/join/` and `/wc/host/` web-client
    links of the two tenants, `zoom.us` and `renata.zoom.us`.
  - The `zoommtg://zoom.us/join?confno=` rewrite done in `abrir_zoom_app`.
  - Python's `split`, `in`, `find`, `strip`, `lower`, `int()`, `min` and
    `urllib.parse.quote` are modelled in `builtins.dfy` with their Python
    semantics. For example, `split` cuts at non-overlapping occurrences
    found left to right, and `strip` removes every character
    `str.isspace` accepts.
- **The schedule** (`calendar.dfy`, `schedule.dfy`).
  - `WEEKDAY_MAP`, `_parse_hhmm` and `_next_weekday_datetime`.
  - `compute_next_run` with its one-off (`unico`), weekly (`semanal`) and
    unscheduled branches, and the 20-minute default lead.
  - The weekly loop that collects one candidate per recognised day is a
    method with a loop invariant, proved against the function
    `Candidates`.
  - An instant is a whole number of seconds since 0001-01-01 00:00 local
    time. That day is a Monday, so `Weekday(t) == (t / 86400) % 7`
    matches `datetime.weekday()`. The clock reading `now` is a parameter.
- **The worker** (`worker.dfy`).
  - `Decide` is the decision one iteration of `planificar_reunion` takes:
    stop, crash on the `ValueError` of a malformed `hora`, open (then end
    or pause 60 s), or sleep 1 to 30 seconds.
  - `RunWorker` is its `while True` loop run over a given sequence of
    clock readings, proved to produce `Trace`, the actions the iterations
    decide up to the one that ends the worker.
  - Lemmas about `Trace` exhibit three faults of the loop as written (see
    "## Findings"). `RunWorkerCorrected` is a worker without them, with
    its properties proved.
- **The dispatch** of `abrir_reunion` (`launcher.dfy`): which launcher gets
  which link, as a datatype value.

The files are `wrappers.dfy`, `builtins.dfy`, `calendar.dfy`,
`meeting_url.dfy`, `schedule.dfy`, `worker.dfy` and `launcher.dfy`, one
module each.

The weekly rule is easy to misread as "subtract the lead, and add a week
if the result is already past". That is not what the code does, and the
model follows the code: `_next_weekday_datetime` adds the week to the
occurrence itself, before the lead is subtracted, and only when that
occurrence is not strictly after `now`. So a weekly run time can lie in the
past: it does throughout the lead window before each occurrence.
`Schedule.WeeklyNextRun` states the behaviour of the code. A one-off run
time that is not after `now` gives None and is never moved.

## Model

| member | source | states |
|---|---|---|
| Builtins.Find | zoom_auto_launcher.py:93 | definition of `str.find`, None standing for -1; stated by `FindFromIsFirst` and `FindIs` |
| Builtins.Contains | zoom_auto_launcher.py:93 | definition of `pat in s`; stated by `ContainsMeans` |
| Builtins.FindFromIsFirst | zoom_auto_launcher.py:93 | `str.find` returns the first occurrence: no occurrence precedes the index found, and none exists when nothing is found |
| Builtins.ContainsMeans | zoom_auto_launcher.py:93 | `pat in s` holds exactly when `pat` occurs at some index of `s` |
| Builtins.FindIs | zoom_auto_launcher.py:93 | an occurrence with none before it is the index `str.find` returns |
| Builtins.ContainsChar | zoom_auto_launcher.py:94 | a one-character pattern is in a string exactly when the character is |
| Builtins.ContainsInfix | zoom_auto_launcher.py:199 | a string containing a pattern contains every infix of that pattern |
| Builtins.Split | zoom_auto_launcher.py:94 | `str.split(sep)` gives at least one piece; the rows below state the rest |
| Builtins.JoinSplit | zoom_auto_launcher.py:94 | `sep.join(s.split(sep)) == s`: split loses nothing |
| Builtins.SplitPiecesAreFree | zoom_auto_launcher.py:94 | no piece of `s.split(sep)` contains `sep` |
| Builtins.BeforeFirstIsPrefix | zoom_auto_launcher.py:94 | `s.split(sep)[0]` is the prefix of `s` before the first occurrence of `sep`, or all of `s` when there is none |
| Builtins.AfterLastFollowsOccurrence | zoom_auto_launcher.py:94 | when `sep` occurs in `s`, `s.split(sep)[-1]` is the suffix of `s` after one of its occurrences |
| Builtins.AfterLastIsFree | zoom_auto_launcher.py:94 | `s.split(sep)[-1]` does not contain `sep` |
| Builtins.BeforeFirstChar | zoom_auto_launcher.py:94 | a `c`-free prefix followed by `c` is exactly `split(c)[0]` |
| Builtins.SkipSpaces | zoom_auto_launcher.py:370 | skipping leading whitespace stops at a non-space or at the end |
| Builtins.Strip | zoom_auto_launcher.py:370 | `strip()` is never longer than its argument |
| Builtins.StripSpec | zoom_auto_launcher.py:370 | `strip()` is the slice between the leading and the trailing whitespace, and neither starts nor ends with whitespace |
| Builtins.StripUnchanged | zoom_auto_launcher.py:370 | a string that neither starts nor ends with whitespace is its own strip |
| Builtins.Lower | zoom_auto_launcher.py:410 | `lower()` keeps the length (one character for one, as for every key of `WEEKDAY_MAP`) |
| Builtins.LowerKeepsSpaces | zoom_auto_launcher.py:410 | `lower()` never turns whitespace into non-whitespace or back |
| Builtins.LowerIdempotent | zoom_auto_launcher.py:410 | lower-casing twice is lower-casing once |
| Builtins.ParseInt | zoom_auto_launcher.py:371 | definition of `int()` of a string: stripped, optional sign, digits with single underscores between them; None standing for the `ValueError`; stated by the rows below |
| Builtins.ParseIntDecimal | zoom_auto_launcher.py:371 | `int(str(n)) == n` for every integer |
| Builtins.ParseIntOfDigitRun | zoom_auto_launcher.py:371 | `int()` of a bare digit run (with single underscores between digits) is its decimal value |
| Builtins.ParseIntPad2 | zoom_auto_launcher.py:371 | `int()` of a two-digit zero-padded field is its value |
| Builtins.DigitsValueOfDigits | zoom_auto_launcher.py:371 | the decimal spelling of `n` reads back as `n` |
| Builtins.Min | zoom_auto_launcher.py:416 | `min(xs)` is an element of `xs` and no element is smaller |
| Builtins.Quote | zoom_auto_launcher.py:114 | `quote(s)` holds only unreserved characters, '/' and '%', so it cannot end the query value early; a string of safe characters is returned unchanged |
| Builtins.HexDigit | zoom_auto_launcher.py:114 | the digit is an upper-case hexadecimal digit that reads back as its value |
| Builtins.PercentEncode | zoom_auto_launcher.py:114 | three characters per byte, each '%' or an upper-case hexadecimal digit |
| Builtins.PercentEncodeDecodes | zoom_auto_launcher.py:114 | the escape of byte `i` is '%' and two hexadecimal digits that read back as that byte |
| Calendar.Weekday | zoom_auto_launcher.py:375 | `weekday()` is a number from 0 to 6 |
| Calendar.Offset | zoom_auto_launcher.py:376 | a time of day lies within the day and is a whole number of minutes |
| Calendar.ParseHhmm | zoom_auto_launcher.py:369-371 | definition of `_parse_hhmm` (None standing for the `ValueError`); stated by `ParseFormatHhmm` |
| Calendar.ParseFormatHhmm | zoom_auto_launcher.py:369-371 | every time of day written `HH:MM` reads back as itself through `_parse_hhmm` |
| Calendar.SplitHhmm | zoom_auto_launcher.py:370 | a two-character colon-free field, ':', and a colon-free field split into exactly those two fields |
| Calendar.InstantOf | zoom_auto_launcher.py:395 | the instant of a date and time of day falls at that time of day |
| Calendar.ParseDateTime | zoom_auto_launcher.py:395 | a parsed `fecha_hora` is a whole minute |
| Calendar.ParseFormatDateTime | zoom_auto_launcher.py:395 | every valid date and time written `YYYY-MM-DD HH:MM` reads back as its instant |
| Calendar.ParsedDateTimeIsFormatted | zoom_auto_launcher.py:395 | conversely, every text that parses is the `YYYY-MM-DD HH:MM` spelling of a valid date and time, and parses as that instant |
| Calendar.Pad2OfDigits | zoom_auto_launcher.py:395 | a two-digit field is the zero-padded spelling of its value |
| Calendar.Pad4OfDigits | zoom_auto_launcher.py:395 | a four-digit field is the zero-padded spelling of its value |
| Calendar.SameTimeOfDayDayApart | zoom_auto_launcher.py:377-378 | two different instants at the same time of day are at least a day apart |
| Calendar.EpochIsMonday | zoom_auto_launcher.py:375 | the instant numbering agrees with `datetime.weekday()`: 0001-01-01 and 2001-01-01 are Mondays |
| Calendar.OccurrencesWeekApart | zoom_auto_launcher.py:377-378 | two instants on the same weekday at the same time of day are at least a week apart |
| Calendar.NextWeekdayInstant | zoom_auto_launcher.py:373-379 | the result is strictly after `now` and at most 7 days after it, falls on `target_wd` at `hh:mm` with zero seconds, and no earlier instant after `now` does |
| Calendar.NextWeekdayInstantCorrect | zoom_auto_launcher.py:374-378 | moving `(target_wd - weekday) % 7` days, setting the time and adding a week when not after `now` gives that first occurrence |
| Schedule.WeekdayMapValuesAreWeekdays | zoom_auto_launcher.py:362-367 | every value of `WEEKDAY_MAP` is a weekday number 0..6 |
| Schedule.WeekdayMapKeysAreDistinct | zoom_auto_launcher.py:362-367 | no key of the dict display is listed twice, so each entry is the one `get` finds |
| Schedule.WeekdayMapEntryFound | zoom_auto_launcher.py:362-367 | looking up any listed key gives that entry's weekday |
| Schedule.WeekdayMapCoversTheWeek | zoom_auto_launcher.py:362-367 | every weekday is named by its Spanish (`lun`…`dom`) and its English (`mon`…`sun`) abbreviation |
| Schedule.Lookup | zoom_auto_launcher.py:410 | definition of `dict.get` over the entries of a dict display with distinct keys, as `WEEKDAY_MAP`'s are; stated by the two rows below |
| Schedule.LookupFindsAnEntry | zoom_auto_launcher.py:410 | a value `get` finds is the value of an entry with that key |
| Schedule.LookupFindsListedKeys | zoom_auto_launcher.py:410 | `get` of a listed key that no earlier entry shares (with distinct keys, any listed key) finds the value of its entry |
| Schedule.DayNumber | zoom_auto_launcher.py:410 | a recognised token names a weekday 0..6 |
| Schedule.DayNumberNormalises | zoom_auto_launcher.py:410 | tokens are trimmed and lower-cased before lookup: a token and its normalised form name the same day |
| Schedule.CandidatesSnoc | zoom_auto_launcher.py:409-413 | each token appends its day's next occurrence, or nothing if it is not recognised |
| Schedule.CollectCandidates | zoom_auto_launcher.py:408-413 | the `for d in dias` loop builds exactly the candidate list `Candidates` |
| Schedule.CandidatesAreOccurrences | zoom_auto_launcher.py:408-413 | every candidate lies within the week after `now`, on a recognised day, at `hora` |
| Schedule.CandidatesCoverDays | zoom_auto_launcher.py:408-413 | every recognised day contributes its next occurrence |
| Schedule.CandidatesEmpty | zoom_auto_launcher.py:408-415 | there are no candidates exactly when no token is recognised (unknown tokens are skipped) |
| Schedule.CandidatesSpec | zoom_auto_launcher.py:408-415 | the three facts above together |
| Schedule.WeeklyRunUnread | zoom_auto_launcher.py:404-406 | without `dias` or `hora` the weekly branch gives None; with both but a `hora` that does not read, the `ValueError` |
| Schedule.ComputeNextRun | zoom_auto_launcher.py:381-421 | `compute_next_run` step by step equals `NextRunTime`, on every branch |
| Schedule.NextRunTime | zoom_auto_launcher.py:381-421 | definition: dispatch on `tipo` to `OneOffRun`, `WeeklyRun` or `now`; its properties are the `OneOffNextRun`, `WeeklyNextRun` and `UnscheduledAndDefaultLead` rows |
| Schedule.OneOffRun | zoom_auto_launcher.py:390-400 | definition of the one-off branch; stated by `OneOffNextRun` |
| Schedule.WeeklyRun | zoom_auto_launcher.py:402-417 | definition of the weekly branch; stated by `WeeklyNextRun` and `WeeklyRunOfDays` |
| Schedule.ComputeWeekly | zoom_auto_launcher.py:402-417 | the weekly branch as written, with its loop, equals `WeeklyRun` |
| Schedule.NextOccurrenceUnique | zoom_auto_launcher.py:416 | there is only one first occurrence after `now` |
| Schedule.MinCandidateIsNextOccurrence | zoom_auto_launcher.py:408-416 | `min(candidates)` is the first instant after `now` on any recognised day at `hora` |
| Schedule.WeeklyNextRun | zoom_auto_launcher.py:402-417 | weekly: None exactly when `dias` is empty, `hora` missing or empty, or no token is recognised; the `ValueError` exactly when `hora` does not read; otherwise the run time plus the lead is the first occurrence after `now` of a configured day at `hora` |
| Schedule.WeeklyRunOutcome | zoom_auto_launcher.py:402-417 | the same, for the `programacion` and lead alone |
| Schedule.WeeklyRunOfDays | zoom_auto_launcher.py:408-417 | with `dias` and a `hora` that reads: never the `ValueError`, None exactly when no token is recognised, else the first occurrence less the lead |
| Schedule.WeeklyRunIsNextOccurrence | zoom_auto_launcher.py:402-417 | a weekly run time exists only for a configuration that reads and names a day, and then precedes the next occurrence by the lead |
| Schedule.WeeklyRunExists | zoom_auto_launcher.py:402-417 | a weekly configuration that reads and names a day has a run time whatever `now` is |
| Schedule.NextOccurrenceStable | zoom_auto_launcher.py:373-379 | the next occurrence seen from `s` is still the next one from any later instant before it |
| Schedule.MinCandidateStable | zoom_auto_launcher.py:408-416 | `min(candidates)` does not change while it is still ahead |
| Schedule.WeeklyRunOfCandidates | zoom_auto_launcher.py:414-417 | a weekly configuration that names a day runs at its earliest candidate minus the lead |
| Schedule.WeeklyRunStableUntilOccurrence | zoom_auto_launcher.py:402-417 | recomputed at any instant before the occurrence it precedes, the weekly run time is the same |
| Schedule.OneOffNextRun | zoom_auto_launcher.py:390-400 | one-off: never raises; `fecha_hora` minus the lead exactly when `fecha_hora` is given, reads as `YYYY-MM-DD HH:MM` and that run is strictly after `now`; None otherwise |
| Schedule.UnscheduledAndDefaultLead | zoom_auto_launcher.py:381-421 | without a recognised `tipo` the result is `now`; without `abrir_antes_min` a one-off run is 20 minutes before `fecha_hora` |
| MeetingUrl.IdAfter | zoom_auto_launcher.py:94 | `url.split(marker)[-1].split("?")[0]` never contains '?' |
| MeetingUrl.IdAfterLastMarker | zoom_auto_launcher.py:94 | that id is the text after an occurrence of the marker that is not followed by another, cut at its first '?' |
| MeetingUrl.ExtractMeetingId | zoom_auto_launcher.py:83-99 | the id never contains '?', and is "" when neither `/j/` nor `/w/` occurs |
| MeetingUrl.ExtractMeetingIdSpec | zoom_auto_launcher.py:92-99 | the id is the text after an occurrence of `/j/` whose following text holds no further `/j/`, or the same for `/w/` when there is no `/j/`, cut at the first '?'; "" when neither occurs |
| MeetingUrl.ExtractMeetingIdOverlapping | zoom_auto_launcher.py:94 | with overlapping markers the id follows the cut `split` makes: `x/j/j/5` gives `j/5` |
| MeetingUrl.BuildWebclientUrl | zoom_auto_launcher.py:107-110 | an empty id gives the link back unchanged |
| MeetingUrl.RenataBaseMentionsRenata | zoom_auto_launcher.py:107-111 | the renata base contains `renata.zoom.us` and the zoom.us base does not, so the tenant decides the branch |
| MeetingUrl.RenataAlwaysJoins | zoom_auto_launcher.py:107-114 | a link mentioning `renata.zoom.us` with an id gives `https://renata.zoom.us/wc/join/{id}?uname={quote(name)}` whatever `as_host` is |
| MeetingUrl.ZoomHostWhenAsked | zoom_auto_launcher.py:115-117 | any other link with an id and `as_host` gives `https://zoom.us/wc/host/{id}?prefer=1` |
| MeetingUrl.ZoomJoinOtherwise | zoom_auto_launcher.py:118-119 | any other link with an id and no `as_host` gives `https://zoom.us/wc/join/{id}?uname={quote(name)}` |
| MeetingUrl.BuildWebclientUrlShape | zoom_auto_launcher.py:107-119 | a built link is a tenant-and-role prefix, the id, '?' and the query |
| MeetingUrl.SplitQueryOf | zoom_auto_launcher.py:114 | a '?'-free id, '?' and a query split back into the id and the query |
| MeetingUrl.ParseAfterPrefix | zoom_auto_launcher.py:111-119 | the four web-client prefixes exclude one another, so a link's prefix fixes its tenant and role |
| MeetingUrl.ParsePrefixed | zoom_auto_launcher.py:111-119 | prefix, id, '?' and query read back as tenant, role, id and query |
| MeetingUrl.WebclientUrlRoundTrip | zoom_auto_launcher.py:101-119 | a built link reads back as the original tenant, a host link exactly for zoom.us with `as_host`, the extracted id, and `prefer=1` or `uname=` with the quoted name |
| MeetingUrl.ZoomAppUrl | zoom_auto_launcher.py:198-202 | definition of the `zoommtg://` rewrite; stated by the row below |
| MeetingUrl.ZoomAppUrlCarriesMeetingId | zoom_auto_launcher.py:198-202 | a `zoom.us/j/` link becomes `zoommtg://zoom.us/join?confno=` followed by exactly the id `extract_meeting_id` finds; any other link is used unchanged |
| Launcher.LaunchFor | zoom_auto_launcher.py:344-357 | the desktop app (with the rewritten link) exactly for a missing or `zoom_app` mode; the browser with the link, the name (default `Usuario`) and the incognito flag (default false) exactly for `navegador_auto`; nothing for any other mode |
| Launcher.AppLaunchJoinsByMeetingId | zoom_auto_launcher.py:344-350 | in the default mode, a `zoom.us/j/` meeting is opened by its meeting id, any other link as it is |
| Worker.Decide | zoom_auto_launcher.py:429-452 | stop exactly on None; crash exactly on the `ValueError`; open exactly when the run time is reached, then end exactly for one-off schedules and otherwise pause 60 s; else sleep 1 to 30 s, never past the run time |
| Worker.Step | zoom_auto_launcher.py:427-452 | definition: the decision of one iteration for its pair of readings; stated by `Decide` and `Iteration` |
| Worker.Upto | zoom_auto_launcher.py:426-452 | the loop takes no more iterations than it is given |
| Worker.UptoShape | zoom_auto_launcher.py:426-452 | the actions taken are a prefix of those decided; only the last can end the worker, and it stops early only after one that does |
| Worker.Trace | zoom_auto_launcher.py:426-452 | a worker takes at most one action per pair of clock readings |
| Worker.Iteration | zoom_auto_launcher.py:427-452 | one pass of the loop body computes the next run at the first reading and decides with the second |
| Worker.RunWorker | zoom_auto_launcher.py:423-452 | the `while True` loop over the clock readings takes exactly the actions of `Trace` |
| Worker.TraceShape | zoom_auto_launcher.py:426-452 | the worker runs until an action ends it, and iteration `k` takes the decision for its own readings |
| Worker.OneOffOpensOnlyBetweenReads | zoom_auto_launcher.py:427-441 | a one-off meeting is opened only when its run time lies strictly after the first clock reading of the iteration and no later than the second |
| Worker.OneOffMissesItsRunTime | zoom_auto_launcher.py:390-441 | when both readings of each iteration agree, a one-off worker never opens its meeting and ends by stopping |
| Worker.WeeklyReopensThroughoutLead | zoom_auto_launcher.py:402-445 | a weekly worker opens its meeting at every iteration between the run time and the occurrence |
| Worker.UnscheduledReopensForever | zoom_auto_launcher.py:419-445 | a meeting without a schedule is opened at every iteration for as long as the worker runs |
| Worker.WeeklyRunIsNextWeeklyRun | zoom_auto_launcher.py:402-417 | a weekly run time computed at `base` is the first occurrence after `base` of a configured day at `hora`, less the lead |
| Worker.ComputeAgain | zoom_auto_launcher.py:402-417 | recomputing a weekly schedule at `base` gives a run time exactly when the configuration reads and names a day, and it is the first occurrence after `base` less the lead |
| Worker.PromptSnoc | zoom_auto_launcher.py:427-445 | opening a run at the first reading since the last opening that reaches it keeps every opening prompt |
| Worker.ServedRunsDayApart | zoom_auto_launcher.py:402-445 | served weekly runs, the first seen from the first reading and each later one recomputed after the one before, are at least a day apart |
| Worker.ServeRuns | zoom_auto_launcher.py:423-452 | corrected loop: each run is opened at the first reading since the previous opening that reaches it, never before; the first run is left unserved exactly when no reading reaches it; a schedule that is not weekly is opened at most once; each later weekly run is the first occurrence after the end of the previous occurrence (or after the reading at the iteration following the previous opening, if later), less the lead, so runs strictly increase; after the last opening of a weekly worker whose configuration reads, a next run exists and no later reading reaches it |
| Worker.RunWorkerCorrected | zoom_auto_launcher.py:423-452 | the corrected worker: the first run is the one computed at the first reading and is left unserved exactly when no reading reaches it; every run is opened at the first reading since the previous opening that reaches it; a meeting without a schedule is opened exactly once, at the first iteration; a weekly worker's first run is the first occurrence after the first reading less the lead, each later one is recomputed after the previous one, runs are at least a day apart, and the run pending after the last opening is not reached; it crashes exactly on the `ValueError` and then opens nothing |

## Left out

- Browser automation is not part of this model: `zoom_logged_in`,
  `login_zoom_via_google` and `abrir_navegador_automatico`. It depends on a
  third-party page's markup. `Launcher.LaunchFor` only returns what would
  be handed to it.
- Launching processes is not modelled: `os.startfile`, `subprocess.Popen`,
  the `platform.system()` dispatch, and the True/False results of
  `abrir_zoom_app` and `abrir_reunion`.
- Threads, `time.sleep` and `datetime.now` are not modelled. The clock
  readings of a worker are a parameter, and a sleep is an `Action` value.
  Nothing constrains the readings to follow the sleeps.
- Printed and logged output is not modelled.
- Time zones are not modelled. America/Bogota has a fixed offset and no
  daylight saving, so instants are local seconds.
- Microseconds and the float `total_seconds()` are not modelled; instants
  are whole seconds.
- Worker.Decide: a fractional `delta` between 0 and 1 is not modelled. In
  the source, `int()` truncates it to 0, so the worker sleeps 1 s and
  overshoots the run time by under a second. With whole seconds this case
  does not arise.
- Worker.RunWorker: runs only as many iterations as it is given readings.
  The source loops forever while the schedule keeps it going.
- Calendar.ParseDateTime: accepts only the zero-padded layout
  `YYYY-MM-DD HH:MM`. `strptime` also accepts one-digit months, days,
  hours and minutes, any run of whitespace for the space, and decimal
  digits of scripts other than ASCII (its `\d`); for those inputs the
  model gives None.
- MeetingUrl.ExtractMeetingIdSpec / MeetingUrl.IdAfterLastMarker: where
  markers overlap (`x/j/j/5`), the ensures does not decide between them;
  it admits the text after either `/j/`. The definition follows `split`,
  and `ExtractMeetingIdOverlapping` shows the case above gives `j/5`.
- Calendar.ParseHhmm: the `tzinfo` of the time it builds is dropped, since
  every time is local.
- Builtins.Lower: maps only ASCII and Latin-1 capitals; other characters
  are left unchanged. The keys of `WEEKDAY_MAP` are all ASCII or Latin-1.
- Builtins.ParseInt: decimal digits of scripts other than ASCII, which
  `int()` also accepts, make the model give None.
- Schedule.LeadMinutes: `abrir_antes_min` is taken to be an integer.
  `int()` of a string, a float or another type is not modelled.
- Configuration values of unexpected types are not modelled. A `dias`
  entry or a `hora` that is not a string would make the source raise
  `AttributeError`.
- A missing `url` key, which makes `abrir_reunion` raise `KeyError`, is not
  modelled; `url` is a required field.
- Overflow is not modelled. `datetime` overflows outside years 1..9999
  (a lead that moves a run time out of range, or a next occurrence after
  9999-12-31); the model's integers are unbounded.
- `main`, the static `reuniones` list, credentials and browser options are
  not modelled.

## Findings

| source | as written | input that shows it | evidently intended | confidence | as-written member | corrected member |
|---|---|---|---|---|---|---|
| zoom_auto_launcher.py:398-441 | `compute_next_run` returns None for a one-off run time that is not strictly after its own clock reading. `planificar_reunion` opens only when the run time is not after a second reading taken just afterwards. | `unico` with `fecha_hora` "2025-03-10 10:00" and the default lead: the worker sleeps until 09:40:00, and the next computation sees the run time not after `now`, gets None and returns without opening. | open a one-off meeting once, when its run time is reached | high; not executed | Worker.OneOffMissesItsRunTime | Worker.RunWorkerCorrected |
| zoom_auto_launcher.py:402-445 | The weekly run time stays the same until the occurrence itself, so during the lead window every iteration opens the meeting again, 60 s apart. | `semanal` on `lun` at "10:00" with the default 20-minute lead: from Monday 09:40 to 10:00 the meeting is opened about 20 times. | open once per occurrence, then wait for the next | high; not executed | Worker.WeeklyReopensThroughoutLead | Worker.ServeRuns |
| zoom_auto_launcher.py:419-445 | A meeting without a recognised `tipo` is due `now` at every computation, so it is opened every 60 s for as long as the program runs. | no `programacion` at all: openings at t, t+60, t+120, … | open it once, immediately | medium; not executed | Worker.UnscheduledReopensForever | Worker.RunWorkerCorrected |
