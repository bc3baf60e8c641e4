# coltonball: the month grid and the sign-up table

coltonball is a small sign-up board written in Go (`app.go`). The `/` handler shows a month as a grid of 42
cells. Each day cell lists the names stored for that date in the SQLite table `names(id, date, name)`.
`/submit-name` adds a (date, name) row unless an identical row already exists. `/remove-name` deletes
matching rows. `/names` lists the names stored under one date. `printState` prints the rows dated after
yesterday, grouped by date.

This Dafny project models that core. It has five modules:

- `Wrappers` (`wrappers.dfy`) holds `Option`. It stands in for the results of `strconv.Atoi` and of key parsing.
- `Calendar` (`calendar.dfy`) covers the date arithmetic the handler gets from Go's `time` package:
  - leap years and month lengths;
  - day numbers counted from 0001-01-01;
  - the day normalisation of `time.Date` and `Time.AddDate`;
  - weekdays;
  - the choice of month from the query parameters;
  - the previous/next month navigation.
- `DateKey` (`datekey.dfy`) covers the `"2006-01-02"` key format, its inverse, and the BINARY TEXT order
  SQLite uses for `date > ?`.
- `NameTable` (`names.dfy`) holds the class `Table`, which keeps the rows of `names` as a `seq`. It has one
  method per locked section (add, remove, lookup, the `printState` grouping loop), plus the functions and
  lemmas that specify them.
- `MonthGrid` (`grid.dfy`) builds the 42 cells in three loops:
  - leading blanks up to the weekday of the first;
  - one cell per day, inside the lock;
  - trailing blanks.

  `BuildMonthView` then adds the navigation targets.

The main results:

- The grid holds exactly `Weekday(first)` blanks, then the days 1..n of the month in order, each with the
  names stored under its key, then blanks up to 42 cells.
- "First of the month plus one month minus one day" is the month's last day.
- The navigation targets undo each other.
- The weekday agrees with Sakamoto's congruence.
- A key parses back to its date.
- For four-digit years, the TEXT order of keys is the chronological order of dates. So `printState`'s filter
  `date > yesterday` keeps exactly the keys of today and later.
- The insert keeps the table free of duplicate pairs.
- The delete removes every copy of a pair and nothing else.
- Every lookup returns, for each name, exactly as many copies as there are rows.

Behaviour of the code that the model keeps:

- `/remove-name` deletes every matching row, not only the first.
- `/submit-name` reports nothing about whether it inserted a row.
- Lookups have no `ORDER BY`, so no order of the names is promised. Lookups are specified up to a multiset.
- Dates are stored as given. There is no validation of the key format.

## Model

| member | source | states |
|---|---|---|
| Calendar.DaysInMonth | app.go:104-106 | a month has 28 to 31 days; it has 29 exactly for February of a leap year |
| Calendar.YearLength | app.go:104-106 | consecutive January firsts are 366 days apart exactly in leap years, 365 otherwise |
| Calendar.MonthLength | app.go:104-106 | the first of the next month (or of next year) lies DaysInMonth days after the first of this month |
| Calendar.SelectMonth | app.go:86-101 | the requested (year, month) is shown when both parameters parse and the month is 1..12; in every other case the current month is shown |
| Calendar.NextMonth | app.go:146-151 | the next month is in 1..12 and its first is this month's length after this month's first |
| Calendar.PrevMonth | app.go:139-144 | the previous month is in 1..12 and ends the day before this month's first |
| Calendar.YearBoundary | app.go:139-151 | December rolls to January of the next year, January back to December of the previous year |
| Calendar.NavigationRoundTrip | app.go:139-151 | previous-of-next and next-of-previous both give back the month shown |
| Calendar.Resolve | app.go:103-104 | the normalised date is a valid date with the same day number as the out-of-range (year, month, day) |
| Calendar.CarryMonth | app.go:104 | carrying a month count into the year gives a month in 1..12 and keeps the total count of months; an in-range month is unchanged |
| Calendar.AddDate | app.go:104 | the result is a valid date whose day number is that of day `t.day + days` of the month reached by carrying `t.month - 1 + months` into `t.year + years`; its partners AddDays, AddDaysWithinMonth and LastOfMonth pin down the calls the handlers make |
| Calendar.DayNumberOrder | app.go:104-106 | day numbers order valid dates chronologically, and equal day numbers mean equal dates |
| Calendar.AddDays | app.go:50 | adding k days to a valid date moves its day number by k |
| Calendar.AddDaysWithinMonth | app.go:116 | adding d - 1 days to the first of a month gives day d of that month, for every d in 1..n |
| Calendar.LastOfMonth | app.go:104-106 | first of the month, plus one month, minus one day, is day DaysInMonth of the same month |
| Calendar.Weekday | app.go:105 | the weekday is in 0..6; its value is Sakamoto's congruence (WeekdayMatchesSakamoto), Sunday = 0 |
| Calendar.WeekdayMatchesSakamoto | app.go:105 | the day-number weekday equals Sakamoto's congruence for every date |
| DateKey.Format | app.go:53 | a key has at least ten characters, and exactly ten with dashes at positions 4 and 7 for a year in 0..9999 and a month and day in 0..99; its partners ParseFormat (round trip) and KeyOrder (order) state what the key means |
| DateKey.ParseFormat | app.go:116 | the key of a date of a year in 0..9999 has ten characters and parses back to the date |
| DateKey.TextLess | app.go:53 | the TEXT comparison behind `date > ?` never ranks a text below itself and ranks a proper prefix first |
| DateKey.TextLessOrder | app.go:53 | the TEXT comparison is a strict total order: asymmetric, total on distinct texts, transitive |
| DateKey.TextLessFourDigits | app.go:53 | four-digit year fields compare as TEXT exactly as the years compare as numbers |
| DateKey.KeyOrder | app.go:53 | for years 0..9999, one key sorts before another as TEXT exactly when its date is earlier |
| NameTable.NamesOnCount | app.go:117-129 | a lookup by date sees each name exactly as often as its (date, name) row is stored |
| NameTable.WithoutCount | app.go:220 | the delete removes every copy of the pair and keeps every other row as often as before |
| NameTable.WithoutAbsent | app.go:220 | deleting a pair that is not stored leaves the rows unchanged |
| NameTable.AddedKeepsNoDuplicates | app.go:176-191 | the check-then-insert keeps the table free of duplicate pairs |
| NameTable.AddTwice | app.go:176-191 | submitting the same pair twice leaves it stored exactly once |
| NameTable.NamesAfterAdd | app.go:176-191 | after an insert a lookup gains the new name once on its date, unless it was already there; nothing else changes |
| NameTable.WithoutKeepsNoDuplicates | app.go:219-221 | the delete keeps the table free of duplicate pairs |
| NameTable.NamesAfterRemove | app.go:219-221 | after a delete the name is gone from that date; every other lookup is unchanged |
| NameTable.GroupStep | app.go:59-68 | one turn of the grouping loop keeps the map exact: keys after the cutoff that have names, each holding that date's names |
| NameTable.DayBefore | app.go:50 | yesterday's day number is one less than today's, and yesterday lies in this year or the one before |
| NameTable.PreviousDayYear | app.go:50 | of two consecutive valid dates, the earlier lies in the later one's year or the year before |
| NameTable.SnapshotFromToday | app.go:50-53 | for four-digit years, a key sorts after yesterday's key exactly when its date is today or later |
| NameTable.Table.constructor | app.go:27-44 | the table starts with the rows the database file already holds |
| NameTable.Table.Add | app.go:176-191 | the new rows are the old ones plus the pair, appended only when absent; afterwards the pair is stored; no-duplicates is preserved |
| NameTable.Table.Remove | app.go:219-221 | the new rows are the old ones without any copy of the pair, other rows keep their counts, an absent pair changes nothing, no-duplicates is preserved |
| NameTable.Table.Names | app.go:237-253 | the names returned are, as a multiset, exactly those stored under the date |
| NameTable.Table.Snapshot | app.go:46-68 | the map's keys are exactly the dates after yesterday's key with at least one name; each key holds exactly that date's names |
| MonthGrid.DayCells | app.go:114-133 | one cell per day 1..n, in order, each carrying its day, its key, the names stored under the key and their count |
| MonthGrid.Layout | app.go:108-137 | leading blanks, then day cells, then trailing blanks, 42 in all, form the month's grid |
| MonthGrid.Grid | app.go:103-137 | 42 cells: Weekday(first) blanks, then the cells of days 1..n in order, then blanks |
| MonthGrid.BuildMonthView | app.go:86-162 | the month shown is the one selected from the parameters, its grid is exact, and the navigation targets are its previous and next months |

## Left out

- HTTP routing, form and JSON decoding and encoding, template rendering and `Month.String()` are left out. The
  handlers' parameters arrive as values: the query parameters as `Option<int>` after `strconv.Atoi`, and the
  form and JSON fields as strings.
- SQL and the driver are left out. The table is a sequence of (date, name) rows; the `id` column and
  autoincrement are not modelled. Storage errors, which end the process via `log.Fatal`, are not modelled.
- `dbMutex` and concurrency are left out. Each locked section is one method of `Table`, so every locked
  section is treated as atomic. `/names` releases the lock before it reads the result rows, and that window
  is not modelled.
- `time.Now` is a parameter (`today`). Local time zones and the UTC date of `firstOfMonth` are not
  distinguished.
- Logging and `printState`'s printing (map iteration order included) are left out. This includes the
  submit handler's "New count" log line, which prints the length of the name.
- Go's `time` keeps dates in a 64-bit count of seconds. The model uses unbounded integers, so years beyond
  that range are not cut off.
- Go's `absDate` is not transcribed. Its day normalisation is modelled by `Calendar.Resolve`, a month-by-month
  walk whose result is proved to be the unique valid date with the same day number.
- Row order is not modelled, because the queries have no `ORDER BY`. Lookups are specified up to a multiset.
  A nil and an empty name list are not distinguished.
- DateKey.KeyOrder: holds only for years 0..9999. Outside that range the key is longer or carries a sign.
- DateKey.ParseFormat: holds only for years 0..9999, for the same reason. DateKey.Format formats every year
  as Go does, but nothing is proved about keys outside that range.
- NameTable.SnapshotFromToday: holds only for well-formed keys of years 0..9999. `date > ?` also keeps any
  malformed key that happens to sort after yesterday's. NameTable.Table.Snapshot itself is stated for
  every key.
