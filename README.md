# Leaderboard animation: frame schedule and snapshot resolution

`animate.py` turns a folder of dated leaderboard snapshots into a bar-chart
race. Its pipeline has five steps:

1. It reads the file names `YYYY-MM-DD-(P)....csv` into `(date, part, file)`
   triples.
2. It loads each file into a registry keyed by `(date, part)`.
3. It lays out an ordered list of frames for April 20 to June 17. Each day
   gets two regular frames. A day in the event table also gets ten event
   frames for each distinct part listed for it.
4. For every frame, `update` picks the snapshot to show. This is either the
   exact key or the greatest key dated on or before the frame. It then sorts
   the snapshot's rows by Total and adds the event caption on event frames.
5. It hands everything to matplotlib and ffmpeg.

This project models steps 1 to 4 in Dafny and proves properties of them.
The modules are:

- `Calendar`: dates as day ordinals, exactly as `date.toordinal()` counts
  them. So "the next day" is `+ 1` and date comparison is integer comparison
  (`OrdinalOrder`).
- `PyText`: the string built-ins the parser uses: `str.split` on one
  character, `os.path.basename`, and `int()` on text.
- `FileNames`: the parse loop over the file list, as a method checked
  against a specification function. It stops at the first name that raises.
- `Registry`: the loop that fills the registry, and `max` over
  `(date, part)` keys.
- `Scheduler`: the frame loop as a method whose result is the function
  `Schedule`.
- `ScheduleProperties`: the shape of that list: its length, date order, each
  day's layout, the multiplicity of each frame, and the order of a day's
  event parts.
- `Render`: key resolution, the failure when `df` is never bound, the Total
  sort and the caption lookup.
- `Animation`: the top level (the season window, `Prepare`) and the facts
  that connect the frame list to `update`.

The lookup key follows the code at `animate.py:83`. An event frame looks up
`(date, 0)` and a regular frame looks up `(date, timestep)`. So an event
frame never looks up the snapshot of its own part, and a snapshot whose part
is 2 or more is never an exact hit (`Animation.LookupKeysInRange`): it is
shown only when it is carried forward. When the key is missing, the code takes `max` over whole
`(date, part)` tuples, not over dates alone. A later day therefore always
wins, and on the same day the greatest part wins (`Render.CarryForward`).

## Model

| member | source | states |
|---|---|---|
| Calendar.OrdinalOrder | animate.py:71-78 | For valid dates, ordinals compare exactly as `datetime` values do, field by field, and equal ordinals mean equal dates. So the loop's `<=` and `+ timedelta(days=1)` become integer `<=` and `+ 1`. |
| PyText.Split | animate.py:20 | `split('-')` gives at least one piece, and no piece contains the separator. The first piece is the prefix up to the first separator, and there is exactly one piece iff the separator does not occur. |
| PyText.JoinSplit | animate.py:20 | Joining the pieces of `s.split(c)` with `c` gives back `s`. |
| PyText.SplitJoin | animate.py:20 | Splitting the join of separator-free pieces gives back the pieces. |
| PyText.Basename | animate.py:20 | `os.path.basename` gives a suffix of the path that contains no `/`. When the suffix is shorter than the path, a `/` precedes it. |
| PyText.TrimSpaceStrips | animate.py:30 | What `int()` keeps after stripping is a slice of the text, and everything outside that slice is whitespace. Here and below, whitespace is what `int()` strips from an ASCII string: tab to carriage return, and space. |
| PyText.TrimSpaceExactly | animate.py:30 | Conversely, for any core that begins and ends with a non-space and has only whitespace around it, stripping keeps exactly that core. |
| PyText.DecimalValue | animate.py:30 | The decimal string of `n` denotes `n`. |
| PyText.PadValue | animate.py:28-29 | A zero-padded field of width `w` denotes its number. |
| PyText.ParseIntAccepts | animate.py:30 | `int()` succeeds exactly on integer literals: optional whitespace, an optional sign, digit groups with single underscores between digits, optional whitespace. On every other text it raises. |
| PyText.SeparatorNotStripped | animate.py:30 | A text that starts with one of `\x1c`–`\x1f` makes `int()` raise: on an ASCII string these are not stripped. |
| PyText.ForeignCharRejected | animate.py:30 | A character other than a digit, whitespace, a sign or `_` anywhere in the text makes `int()` raise. |
| PyText.ParseDigits | animate.py:30 | `int()` of a run of ASCII digits is its value. |
| PyText.ParseNegatedDigits | animate.py:30 | `int()` of a minus sign followed by digits is the negated value. |
| PyText.ParseIntTrimmed | animate.py:30 | `int()` of a literal equals `int()` of its core: the whitespace around it does not change the value. |
| PyText.ParsePlus | animate.py:30 | A `+` sign in front of digit groups leaves the value unchanged. |
| PyText.ParseMinusGroups | animate.py:30 | Digit groups parse, and a `-` sign in front of them negates the value. |
| PyText.ParseUnderscore | animate.py:30 | An underscore between two digit groups gives digit groups, and leaves the value unchanged. Together with `ParseIntTrimmed`, the two sign rows and `ParseDigits`, this fixes the value of every literal. |
| PyText.ParseIntRoundTrip | animate.py:30 | `int(str(i)) == i` for every integer `i`. |
| FileNames.DayField | animate.py:29 | A `%d` field that matches gives a day from 1 to 31, and the field is that day written as two digits, as one digit, or as a space and one digit. |
| FileNames.DayTextValue | animate.py:29 | Conversely, every form of a day from 1 to 31 that `%d` allows is read as that day. |
| FileNames.ParseYmd | animate.py:28-29 | A date that `strptime('%Y-%m-%d')` accepts is a valid calendar date. The year field is its four-digit year, and the month and day fields are forms of its month and day that `%m` and `%d` allow. |
| FileNames.ParseYmdAccepts | animate.py:28-29 | Conversely, every valid date is accepted when written with a four-digit year and any allowed month and day form. |
| FileNames.ParseYmdRejects | animate.py:28-29 | Zero-padded fields that do not form a calendar date are refused: month 0 or 13, day 0, February 29 of a common year, and so on. |
| FileNames.PartText | animate.py:25 | `field.split('(')[1]` raises (None) iff the field has no `(`. |
| FileNames.PartTextBetweenBrackets | animate.py:25 | The part text is exactly what lies between the first `(` and the next bracket or the end of the field. |
| FileNames.ParseFields | animate.py:21-30 | The fields fail with the missing-field error iff there are fewer than four. Otherwise they fail with the missing-`(` error iff the fourth has no `(`. Otherwise they fail with the bad-date error iff `strptime` refuses the first three. Otherwise they fail with the bad-part error iff the bracketed text is not an integer literal. A success carries the date `strptime` read, the part `int()` read, and the path. |
| FileNames.ParseFileName | animate.py:18-33 | A base name without `-` fails with the missing-field error. A parsed name has a valid date and keeps its path. |
| FileNames.ParsedNameYear | animate.py:20-29 | The base name of a parsed file begins with the four-digit year of its date and a `-`. |
| FileNames.ParseAll | animate.py:17-33 | The list parses iff every name parses. Then it has one triple per name, in order. Otherwise it fails with the error of the first name that fails. |
| FileNames.ParseAllFailsEarly | animate.py:17-33 | Once a prefix of the list fails, the whole list fails with that error: the loop stops at the first exception. |
| FileNames.ParseFiles | animate.py:17-33 | The imperative loop returns exactly `ParseAll(ParseFileName, files)`. |
| FileNames.BasenameAfterSlash | animate.py:20 | `basename(dir + "/" + name)` is `name` when `name` has no `/`. |
| FileNames.FormatNameJoin | animate.py:14 | A conventional name `YYYY-MM-DD-(P).csv` is the `-`-join of its fields. A negative part adds an extra field `(`. |
| FileNames.SplitFormattedName | animate.py:20 | `basename(...).split('-')` of a conventional name in any directory gives back its fields. |
| FileNames.ParseYmdPadded | animate.py:28-29 | The zero-padded fields of a valid date are read back as that date. |
| FileNames.ParseNameFields | animate.py:21-30 | The fields of a name with a non-negative part convert back to that date and part. |
| FileNames.NegativeNameFields | animate.py:21-30 | The fields of a name with a negative part fail with the bad-part error. |
| FileNames.ParseFormattedName | animate.py:18-33 | Round trip: a conventional name with a non-negative part, in any directory, parses to its own date, part and path. |
| FileNames.NonCalendarFieldsRejected | animate.py:21-30 | Zero-padded fields that do not form a calendar date fail with the bad-date error, whatever the part. |
| FileNames.NonLiteralPartRejected | animate.py:21-30 | Fields of a valid date whose bracketed text is not an integer literal fail with the bad-part error. |
| FileNames.NegativePartRejected | animate.py:20-30 | A name with a negative part is rejected: the sign is taken as a field separator, so `int('')` raises. |
| Registry.BuildRegistry | animate.py:36-42 | The registry's keys are exactly the keys of the parsed files. Each key holds the table of the last file with that key. |
| Registry.GreatestKeyExists | animate.py:89 | Every non-empty finite set of `(date, part)` keys has a greatest element in tuple order. |
| Registry.Greatest | animate.py:89 | `max` returns a member of the set that is at least every member in tuple order. |
| Render.LookupKey | animate.py:83 | A definition with no contract of its own: the key looked up first, `(date, 0)` for an event frame and `(date, timestep)` for a regular frame. What it leads to is stated by the `ResolveKey`, `EventKeyIgnoresPart` and `Animation.LookupKeysInRange` rows. |
| Render.ResolveKey | animate.py:83-91 | A key is found iff some key is dated on or before the frame, and an exact hit on the lookup key wins. Any key found is in the registry and not later than the frame. Without a hit it is the tuple-greatest such key. |
| Render.EventKeyIgnoresPart | animate.py:83 | Event frames of the same day resolve to the same key, whatever their part. |
| Render.CarryForward | animate.py:89-91 | Without an exact hit, the day shown is the latest day with a snapshot on or before the frame, and the part shown is that day's greatest part. |
| Render.SortByTotal | animate.py:94 | `sort_values(by='Total', ascending=True)` gives the same rows, as a multiset, in ascending order of Total. |
| Render.FirstDescription | animate.py:109-111 | None iff no event row lists the day and part. Otherwise it is the text of the first row that lists them. |
| Render.Caption | animate.py:108-112 | A frame has a caption iff it is an event frame and some event row lists its day and part. The caption is the text of the first such row. |
| Render.Update | animate.py:83-94 | `update` fails (unbound `df`) iff every snapshot is dated after the frame. Otherwise it shows the frame's day and caption, and the resolved snapshot's rows sorted by Total. |
| Scheduler.PartsOn | animate.py:74-75 | A specification function with no contract of its own: the parts of the day's event rows, in table order. What it holds, its order and when it is empty are stated by the `PartsOnMembers`, `PartsOnOrder` and `PartsOnEmpty` rows. |
| Scheduler.PartsOnMembers | animate.py:74-75 | The parts selected for a day are exactly the parts the event table lists for it. |
| Scheduler.Unique | animate.py:75 | `unique()` returns no value twice and is no longer than its input. |
| Scheduler.UniqueMembers | animate.py:75 | `unique()` keeps every value of its input, and each only once. |
| Scheduler.RegularFramesAt | animate.py:72-73 | Regular frame `t` of a day is `(day, t, False)`. |
| Scheduler.DayFrames | animate.py:72-77 | A specification function with no contract of its own: one day's frames. Its layout, length, dates, event runs and multiplicities are stated by the `DayFramesLayout`, `DayFramesLength`, `DayFramesDate`, `DayEventBlock` and `DayCount` rows below. |
| Scheduler.Schedule | animate.py:69-78 | A specification function with no contract of its own: the frames of every day in the range, day by day. Its length, date order, split at a day and multiplicities are stated by the `ScheduleLength`, `ScheduleDates`, `ScheduleAtDay` and `ScheduleMultiplicity` rows below. |
| Scheduler.AppendDay | animate.py:72-77 | One pass of the loop body appends exactly that day's frames. |
| Scheduler.BuildFrames | animate.py:69-78 | The imperative loop returns exactly `Schedule` over the inclusive range of days. |
| ScheduleProperties.UniqueFirstAppearanceOrder | animate.py:75 | `unique()` lists the distinct values in the order of their first appearance in the list it receives. |
| ScheduleProperties.PartsOnOrder | animate.py:74-75 | The day's selected parts keep the event table's row order: of two different parts, the one whose first row for the day comes earlier is first in the selection. This holds in both directions. |
| ScheduleProperties.DayPartsInTableOrder | animate.py:75 | The distinct parts of a day come in the order of their first row in the event table. |
| ScheduleProperties.DistinctPartCount | animate.py:75 | A day has as many distinct parts as the table lists for it. |
| ScheduleProperties.EventFramesLength | animate.py:75-77 | `n` frames per distinct part. |
| ScheduleProperties.EventFramesBlock | animate.py:75-77 | Part `k` fills the `k`-th run of `n` consecutive event frames. |
| ScheduleProperties.RegularCount | animate.py:72-73 | Each regular frame `(d, t, False)` with `0 <= t < regular` occurs once among the day's regular frames, and nothing else occurs. |
| ScheduleProperties.EventCount | animate.py:75-77 | Each listed part's event frame occurs `n` times, and nothing else occurs. |
| ScheduleProperties.DayFramesLayout | animate.py:72-77 | A day is its regular frames followed by the event runs of its distinct parts (policy: regular frames always, event frames added). |
| ScheduleProperties.DayRegularFirst | animate.py:72-73 | A day opens with its regular frames: its frame `t` is `(day, t, False)` for every `t < regular`. |
| ScheduleProperties.PartsOnEmpty | animate.py:74 | The event selection is empty iff the table has no row for the day. |
| ScheduleProperties.QuietDay | animate.py:74 | A day without events gets only its regular frames. |
| ScheduleProperties.DayFramesLength | animate.py:72-77 | A day has `regular + parts * event` frames. |
| ScheduleProperties.DayEventBlock | animate.py:75-77 | The `k`-th distinct part occupies the frames from `regular + k * event` for `event` frames. |
| ScheduleProperties.DayCount | animate.py:72-77 | How many times each frame occurs in a day's block. |
| ScheduleProperties.DayFramesDate | animate.py:72-77 | Every frame of a day's block carries that day. |
| ScheduleProperties.ScheduleLength | animate.py:69-78 | The list has `(days) * regular + (distinct parts over all days) * event` frames, and none for an empty range. |
| ScheduleProperties.ScheduleDates | animate.py:69-78 | Every frame lies in the range, and dates never decrease along the list. |
| ScheduleProperties.ScheduleAtDay | animate.py:69-78 | The list is the earlier days, then day `d`'s block, then the later days. |
| ScheduleProperties.ScheduleMultiplicity | animate.py:69-78 | Each frame's multiplicity: a regular frame once per timestep, an event frame `event` times per listed part, anything else never. |
| Animation.SeasonWindow | animate.py:52-53 | There is no window iff the file list is empty. Otherwise it runs from April 20 of the last file's year for 59 days, to June 17. |
| Animation.SeasonLength | animate.py:52-57 | The season has `118 + 10 * (distinct event parts)` frames. |
| Animation.Prepare | animate.py:14-78 | The script stops with the first bad name's error, or because the list is empty. Otherwise it gives the parsed files, a registry with every file's key and last-writer-wins tables, and exactly the season's frame list. |
| Animation.EventFrameListed | animate.py:74-77 | Every event frame comes from a row of the event table for that day and part. |
| Animation.LookupKeysInRange | animate.py:83 | Along the frame list, the key looked up first is on the frame's day, with a part from 0 to `regular - 1`. |
| Animation.CaptionsOnEventFrames | animate.py:108-112 | Along the frame list, a frame has a caption iff it is an event frame. |
| Animation.FirstFrame | animate.py:70-73 | The first frame is timestep 0 of the first day. |
| Animation.EveryFrameRenders | animate.py:86-91 | `update` succeeds on every frame iff some snapshot is dated on or before the first day. Otherwise it fails at once, on the first frame. |

## Left out

- Reading files is not modelled: the event table (`animate.py:11`) and the leaderboard files (`animate.py:39-41`). The event table is a parameter, and reading one file is the function parameter `load`.
- The latin1 retry at `animate.py:40-41` repeats the same read, so it has no separate effect.
- `glob` and `sorted` (`animate.py:14`) are not modelled. The model takes the file list as input, already in its sorted order.
- A leaderboard row keeps only its name and Total. The category columns only feed the chart.
- All plotting is not modelled (`animate.py:44-50`, `59-66`, `82`, `96-106`, `112-125`): figure, fonts, padding, axes and `ax.clear()`, legend, the caption's placement, the title string, `FuncAnimation`, the ffmpeg export and the window. The view keeps the frame's day as an ordinal instead of the formatted title.
- Event dates are day ordinals. A time of day in the event table, which would make `events_df['Date'] == current_date` false, is not represented. Neither are NaN part numbers.
- PyText.Basename: models `os.path.basename` as `posixpath` does it, splitting at `/` only. On Windows, `ntpath` also splits at `\` and after a drive's `:`.
- A leaderboard's Total is an integer. Float totals are not represented, and neither is a missing Total (NaN), which `sort_values` puts last.
- PyText.ParseInt: text is read as `int()` reads an ASCII string. Only ASCII digits count, and only tab to carriage return and space are stripped. For a string that holds a non-ASCII character, CPython first maps every character for which `str.isspace()` holds (which includes `\x1c`–`\x1f` and the Unicode spaces) to a space, and every Unicode decimal digit to its ASCII digit. That mapping is not modelled.
- PyText.ParseIntRoundTrip and PyText.ParseIntAccepts: CPython 3.11 and later raise `ValueError` in `int()` and `str()` for decimal text over 4300 digits (`sys.get_int_max_str_digits()`). The model has no such limit. The script cannot reach it, because the part text sits inside a base name of at most 255 characters.
- FileNames.ParseYmd: `%Y`, `%m` and `%d` match ASCII digits only. `strptime`'s `\d` also matches other Unicode decimal digits.
- Registry.BuildRegistry: the state of `dataframes` after a read that raises is not modelled, because reading cannot fail in the model.
