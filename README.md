# kosukanri — a Dafny model of the monthly commit report

`kosukanri.py` reads the commits of a set of git repositories for one
month. It groups them by UTC day, by repository and by ticket, then prints
the report. The report has two parts:

- a density chart with one line per day of the month (`2016-03-01 |***`);
- for every day with commits, the date, then one block per repository.

Each block gives the repository's directory name and its number of commits.
When there are several commits it also gives how long the work lasted.
Then it names the one ticket the commits mention, or lists every ticket
mentioned, with the time spent on each.

This project models that core and proves what each step computes:

| module | file | models |
|---|---|---|
| `Text` | `text.dfy` | decimal numerals, `'%0Wd'`, `str.split`/`join`/`strip`, `os.path.basename`, string order and `sorted` |
| `Calendar` | `calendar.dfy` | `utcfromtimestamp(t).date()` as an epoch-day number, `monthrange`, `str(date)` |
| `Buckets` | `buckets.dfy` | the `defaultdict(list)` built by appending each element under each of its keys |
| `Entries` | `entries.dfy` | `Entry`, `get_entry_days`, the parsing of `git log` output in `get_entries` |
| `Tickets` | `tickets.dfy` | `TICKET_PATTERN.search` for `[A-Z0-9]+-[0-9]+` |
| `Grouping` | `grouping.dfy` | `group_by_day`, `group_by_repo`, `group_by_ticket` as loops over the records |
| `Timespan` | `timespan.dfy` | `calculate_timespan`, `seconds_to_string` |
| `Report` | `report.dfy` | `summarize_tickets`, `print_day_summary`, `print_summary` |

Modelling choices:

- Printing is modelled as returning the printed lines in order, without
  their terminators.
- A day is its epoch-day number: the number of days since 1970-01-01.
- Timestamps are whole seconds, which is what git's `%at` and `%ct` print.
- The grouping functions and the loops of the two printing functions are
  methods with loop invariants. Each one is proved to produce a
  specification function: `Groups` for the dictionaries, `RepoLines` /
  `DaySummary` / `DayReports` for the printed lines. Lemmas then state
  what those functions mean.
- Python 2 dictionaries iterate in an order the program does not control.
  `print_day_summary` therefore also returns the order
  in which it visited the repositories. It is proved to list every
  repository of the day exactly once.

## Model

| member | source | states |
|---|---|---|
| Calendar.DayOfBounds | kosukanri.py:105 | the UTC date of a timestamp is the day whose 86400-second window contains it, and no other day's window does |
| Entries.EntryDaysMeaning | kosukanri.py:103-106 | a record belongs to day d exactly when its authored or its committed timestamp falls within d; it belongs to one day, or to two when the timestamps fall on different days |
| Entries.ParseLine | kosukanri.py:42 | a line parses exactly when it splits at NUL into three fields whose first two are integer numerals; the record then belongs to the repository being read, its authored and committed times are the values of the first and second fields, and its summary is the third field |
| Entries.ParseLines | kosukanri.py:42 | the log parses exactly when every line does; the records are the lines' records, in order, one per line |
| Entries.ParseFormatLine | kosukanri.py:42 | a line git writes for a record (`%at NUL %ct NUL %s`) parses back to that record and holds no newline |
| Entries.ParseFormatLog | kosukanri.py:40-42 | reading back the whole log git writes for a non-empty list of records gives those records, in order, except that `strip()` removes the trailing whitespace of the last summary; a last summary that does not end in whitespace comes back unchanged |
| Text.ParseIntToString | kosukanri.py:104 | every integer timestamp's numeral reads back as that integer |
| Text.SplitJoin | kosukanri.py:42 | splitting lines that were joined with a separator they do not contain gives back the lines |
| Text.BasenameSpec | kosukanri.py:64 | the repository name is the part of the path after its last `/`, which is all of the path when it has no `/` |
| Tickets.FindTicketSpec | kosukanri.py:23 | the search returns the leftmost substring matching `[A-Z0-9]+-[0-9]+`, and the longest one starting there; it returns nothing exactly when no substring matches |
| Tickets.FoundIsTicket | kosukanri.py:117-119 | every key `group_by_ticket` uses matches the ticket pattern |
| Tickets.ExampleTicket | kosukanri.py:23 | the ticket of "Fix bug ABC-123 in login" is "ABC-123" |
| Tickets.FindTicketIgnoresTrailingSpace | kosukanri.py:117 | a summary finds the same ticket, or none, with or without its trailing whitespace |
| Buckets.GroupsStep | kosukanri.py:109-111 | one iteration of a grouping loop appends the record to the list of each of its keys and changes nothing else |
| Buckets.GroupsMembers | kosukanri.py:109-111 | a record is in the list of key k exactly when it is one of the input records and k is one of its keys |
| Buckets.GroupsNonEmpty | kosukanri.py:109-111 | the dictionary has no empty list |
| Buckets.GroupsCount | kosukanri.py:109-111 | a list holds each record as many times as the input does, when the record has that key, and not at all otherwise |
| Buckets.GroupsKeepOrder | kosukanri.py:109-111 | each list is the subsequence of the input made of the records with that key, in input order |
| Buckets.GroupsPartition | kosukanri.py:109-111 | the list lengths add up to the number of (record, key) pairs |
| Grouping.GroupByDay | kosukanri.py:96-101 | `group_by_day` builds the dictionary in which every record is appended under each of its days |
| Grouping.AppendToDays | kosukanri.py:99-100 | the inner loop appends the record to the list of each of its days and leaves the other lists as they were |
| Grouping.GroupByRepo | kosukanri.py:108-112 | `group_by_repo` builds the dictionary in which every record is appended under its repository |
| Grouping.GroupByTicket | kosukanri.py:114-120 | `group_by_ticket` builds the dictionary in which every record whose summary mentions a ticket is appended under the first ticket found |
| Grouping.DailyMembers | kosukanri.py:96-101 | a record is in day d's list exactly when d is its authored or its committed day, as many times as it occurs in the input |
| Grouping.DailyOnTheirDay | kosukanri.py:96-101 | every day's list is non-empty and holds only records that belong to that day |
| Grouping.DailyTotal | kosukanri.py:96-101 | the day lists hold one entry per record, plus one more per record whose two timestamps fall on different days |
| Grouping.RepoMembers | kosukanri.py:108-112 | a record is in the list of repository k exactly when its repository is k; k is a key exactly when some record has that repository; no list is empty |
| Grouping.RepoTotal | kosukanri.py:108-112 | the repository lists partition the records: their lengths add up to the number of records |
| Grouping.TicketMembers | kosukanri.py:114-120 | a record is in ticket k's list exactly when the search of its summary finds k; every key is a ticket with a non-empty list |
| Grouping.TicketBucketsDisjoint | kosukanri.py:114-120 | no record is in two ticket lists |
| Grouping.ReadBackSameTickets | kosukanri.py:117-119 | the records read back from a log, whose last summary `strip()` has shortened, have the same ticket keys as the records git wrote |
| Timespan.TimesOnNonEmpty | kosukanri.py:82-83 | the day has timestamps exactly when some record belongs to the day |
| Timespan.Span | kosukanri.py:84 | the span is the largest difference between two of the day's timestamps, and some pair attains it |
| Timespan.TimespanMeaning | kosukanri.py:81-85 | the time is defined exactly when some record belongs to the day (otherwise `max()` raises); it is empty exactly when all of the day's timestamps are the same second, and otherwise it is the span in words |
| Timespan.TimespanOfBucket | kosukanri.py:71 | a non-empty list of the day's records always has a time, so `print_day_summary` never hits the `max()` error |
| Timespan.SecondsToStringReadsBack | kosukanri.py:87-94 | the words are a numeral and a unit: whole seconds below a minute, else whole minutes below an hour, else whole hours, rounded down; the unit is singular exactly when the span is exactly one unit |
| Timespan.ExampleSingular | kosukanri.py:89-94 | 1, 60 and 3600 seconds read "1 second", "1 minute" and "1 hour" |
| Timespan.ExampleRoundedDown | kosukanri.py:90-94 | 90 seconds read "1 minutes" and 3661 seconds "1 hours": the unit is singular only for exactly one unit |
| Report.TicketItemsAt | kosukanri.py:123-125 | item i is ticket i followed, when that ticket has a time, by ": " and the time |
| Report.TicketItemReadsBack | kosukanri.py:124 | an item holds no comma and splits at ':' into its ticket and, when it has one, its time |
| Report.SummarizeTicketsReadsBack | kosukanri.py:122-126 | split at the commas, the ticket list has one piece per ticket, in sorted order, each piece being that ticket's item (after the first, preceded by the separator's space) |
| Text.SortedStrings | kosukanri.py:125 | the tickets are listed each once, all of them, in strictly increasing order |
| Report.RepoLinesReadBack | kosukanri.py:64-79 | a repository block has one or two lines, two exactly when several commits mention several tickets; the first line is the indented directory name and a colon, then the commit count and "commit" for one commit, "commits" otherwise |
| Report.RepoLinesTickets | kosukanri.py:68-79 | the whole first line: for one commit, the indented name and "1 commit" and nothing more; for several commits, the count, "commits over " and the time (possibly empty), followed by the ticket in parentheses exactly when the commits mention one ticket; with several tickets, the second line is the indented ticket list |
| Report.PrintRepo | kosukanri.py:64-79 | the branches of the loop body print the block `RepoLines` describes; the "no commits" error branch is unreachable |
| Report.PrintDaySummary | kosukanri.py:61-79 | the date, then each repository's block, in the order the loop visited them; that order lists every repository of the day exactly once |
| Report.DaySummaryCommits | kosukanri.py:63-65 | the commit counts of a day's blocks add up to the number of records of the day |
| Report.PrintSummary | kosukanri.py:50-59 | one chart line for each day of the month in order, then the summaries of the days with records, in date order; a month with no data prints exactly its density lines |
| Report.NoRecordsNoReports | kosukanri.py:56-59 | days without records print no day summary, so a month with no data prints only its density lines |
| Report.PrintChart | kosukanri.py:53-55 | line i of the chart is day i+1's date and one star per record of that day |
| Report.PrintDays | kosukanri.py:56-59 | the day summaries, each day's repositories enumerated exactly once, for exactly the days that have records |
| Report.PrintDay | kosukanri.py:57-59 | a day without records prints nothing; a day with records prints its summary |
| Report.DensityLineReadsBack | kosukanri.py:55 | a chart line splits at '\|' into the date (and a space) and exactly as many stars as the day has records |
| Report.ChartDays | kosukanri.py:51-52 | the chart's days 1..n of the month are valid dates on consecutive days |
| Report.ChartCoversMonth | kosukanri.py:51-52 | the day after the chart's last day is the first of the next month, so no day of the month is left out |
| Report.ChartOfGroupedDays | kosukanri.py:54-55 | fed the output of `group_by_day`, every day's list belongs to that day, and a day's star count is the number of records belonging to it |
| Calendar.DateStringReadsBack | kosukanri.py:62 | a printed date is ten characters, `YYYY-MM-DD`, and its three fields read back as the year, month and day |
| Calendar.EpochOrigin | kosukanri.py:105 | epoch day 0 is 1970-01-01: the date of every timestamp in the first 86400 seconds of the epoch |
| Calendar.YearLength | kosukanri.py:51 | a year has 366 days exactly when it is a leap year in the Gregorian rule |
| Calendar.NextMonthStart | kosukanri.py:51 | a month is `monthrange`'s number of days long: the next month starts that many days after its first |

## Left out

- `get_stdout`, `list_git_repos`, `get_git_author`, `git_log_args` and `main` are not modelled. They run git, walk directories, read the git configuration, parse the command line and log. `get_entries` receives the output of `git log` as a parameter (`None` when the command failed).
- The command git runs is not modelled. Its `%<(80,trunc)` directive truncates summaries to 80 columns and pads shorter ones with trailing spaces; the model takes the summaries as git prints them, padding included. `ParseFormatLog` states that `strip()` removes the last summary's padding, and `FindTicketIgnoresTrailingSpace` shows that the ticket search, the only reader of summaries, is not affected by it.
- `setup.py` is packaging and is not part of this model.
- Entries.ParseLine: converts a timestamp when the record is read. The source keeps the field as text and converts it with `float()` only later, in `get_entry_days` and `calculate_timespan`. `ParseLine` returns `None` for every field that is not an integer numeral. The source raises, later, only where `float()` fails; the other forms `float()` accepts (fractions, exponents, a `+` sign, surrounding spaces, `inf` and `nan`) are not modelled, since git's `%at` and `%ct` print integer numerals only.
- Timespan.SecondsToString: models integer seconds. The source divides floats by 60.0. For whole seconds, `'%d'` of that quotient is the integer quotient, and the comparisons `minutes == 1` and `hours == 1` hold exactly at 60 and 3600 seconds.
- Timespan.CalculateTimespan: returns `None` where the source raises `ValueError` (`max()` of an empty list). `TimespanMeaning` states when that happens, and `TimespanOfBucket` shows that the report never triggers it.
- Report.PrintRepo: the `raise Error(...)` branch of `print_day_summary` is proved unreachable and not modelled further. The exception class `Error` is not defined in the source.
- Report.PrintSummary: reading `data[day]` from the `defaultdict` inserts an empty list for a missing day. The model reads a missing day as the empty list without changing the dictionary. Nothing reads the dictionary's keys afterwards.
- Report.PrintDaySummary: the order in which Python 2 iterates a dictionary is not modelled. The visiting order is arbitrary and is returned alongside the lines.
- Grouping.AppendToDays: iterates over the day set in an arbitrary order. The result does not depend on that order.
- `logging` calls and `sys.exit` are not modelled.
