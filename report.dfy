/**
 * The printed report: `summarize_tickets`, `print_day_summary` and
 * `print_summary`. Printing is modelled as producing the printed lines, in
 * order, without their line terminators.
 */
module Report {
  import opened Text
  import opened Calendar
  import opened Buckets
  import opened Entries
  import opened Tickets
  import opened Grouping
  import opened Timespan

  /** Every bucket of `m` is non-empty and holds only records of `day`: what grouping one day's records gives. */
  predicate OnDay(m: map<string, seq<Entry>>, day: int) {
    forall k :: k in m ==> m[k] != [] && AllOnDay(m[k], day)
  }

  lemma GroupsOnDay(entries: seq<Entry>, keys: Entry -> set<string>, day: int)
    requires AllOnDay(entries, day)
    ensures OnDay(Groups(entries, keys), day)
  {
    forall k | k in Groups(entries, keys)
      ensures Groups(entries, keys)[k] != [] && AllOnDay(Groups(entries, keys)[k], day)
    {
      GroupsNonEmpty(entries, keys, k);
      BucketsStayOnDay(entries, keys, day, k);
    }
  }

  /** The span of a non-empty bucket of the day, which always exists. */
  function BucketSpan(ents: seq<Entry>, day: int): string
    requires ents != [] && AllOnDay(ents, day)
  {
    TimespanOfBucket(ents, day);
    CalculateTimespan(ents, day).value
  }

  /** One item of the ticket list: the ticket, followed by its span when it has one. */
  function TicketItem(ticket: string, time: string): string
  {
    if time == "" then ticket else ticket + ": " + time
  }

  /** The items of the tickets `names`, in that order. */
  function TicketItems(tickets: map<string, seq<Entry>>, day: int, names: seq<string>): (items: seq<string>)
    requires OnDay(tickets, day)
    requires forall i :: 0 <= i < |names| ==> names[i] in tickets
    ensures |items| == |names|
  {
    if names == [] then []
    else [TicketItem(names[0], BucketSpan(tickets[names[0]], day))] + TicketItems(tickets, day, names[1..])
  }

  lemma {:induction false} TicketItemsAt(tickets: map<string, seq<Entry>>, day: int, names: seq<string>)
    requires OnDay(tickets, day)
    requires forall i :: 0 <= i < |names| ==> names[i] in tickets
    ensures forall i :: 0 <= i < |names| ==>
      TicketItems(tickets, day, names)[i] == TicketItem(names[i], BucketSpan(tickets[names[i]], day))
    decreases |names|
  {
    if names != [] {
      TicketItemsAt(tickets, day, names[1..]);
    }
  }

  /** `summarize_tickets`: the tickets in sorted order with their spans, separated by ", ". */
  function SummarizeTickets(tickets: map<string, seq<Entry>>, day: int): string
    requires OnDay(tickets, day)
  {
    Join(TicketItems(tickets, day, SortedStrings(tickets.Keys)), ", ")
  }

  /** The words of a span use only digits, lower-case letters and spaces. */
  predicate PlainText(s: string) {
    forall i :: 0 <= i < |s| ==> IsDigit(s[i]) || 'a' <= s[i] <= 'z' || s[i] == ' '
  }

  lemma PlainSpan(seconds: nat)
    ensures PlainText(SecondsToString(seconds))
  {
    var text := SecondsToString(seconds);
    if seconds == 1 || seconds == 60 || seconds == 3600 {
      assert text in {"1 second", "1 minute", "1 hour"};
    } else if seconds < 60 {
      assert text == NatToString(seconds) + " " + "seconds";
      PlainNumberWord(seconds, "seconds");
    } else if seconds < 3600 {
      assert text == NatToString(seconds / 60) + " " + "minutes";
      PlainNumberWord(seconds / 60, "minutes");
    } else {
      assert text == NatToString(seconds / 3600) + " " + "hours";
      PlainNumberWord(seconds / 3600, "hours");
    }
  }

  lemma PlainNumberWord(n: nat, word: string)
    requires PlainText(word)
    ensures PlainText(NatToString(n) + " " + word)
  {
    var digits := NatToString(n);
    assert PlainText(digits);
  }

  lemma PlainBucketSpan(ents: seq<Entry>, day: int)
    requires ents != [] && AllOnDay(ents, day)
    ensures PlainText(BucketSpan(ents, day))
  {
    TimespanOfBucket(ents, day);
    var times := TimesOn(ents, day);
    PlainSpan(Span(ents, day));
  }

  /** An item splits at ':' into its ticket and, when it has one, its span. */
  lemma TicketItemReadsBack(ticket: string, time: string)
    requires IsTicket(ticket) && PlainText(time)
    ensures ',' !in TicketItem(ticket, time)
    ensures Split(TicketItem(ticket, time), ':') == if time == "" then [ticket] else [ticket, " " + time]
  {
    assert forall i :: 0 <= i < |ticket| ==> IsTicketChar(ticket[i]) || ticket[i] == '-';
    assert ':' !in ticket && ',' !in ticket;
    assert ':' !in time && ',' !in time;
    if time == "" {
      SplitNoSeparator(ticket, ':');
    } else {
      assert TicketItem(ticket, time) == ticket + [':'] + (" " + time);
      SplitAfterPiece(ticket, ':', " " + time);
      SplitNoSeparator(" " + time, ':');
    }
  }

  /**
   * Reading the ticket list back: split at the commas, it has one piece per
   * ticket, in the increasing order of `SortedStrings`; each piece is the
   * ticket's item, preceded (after the first) by the space of the separator.
   * Each item splits at ':' back into its ticket and span (`TicketItemReadsBack`).
   */
  lemma SummarizeTicketsReadsBack(tickets: map<string, seq<Entry>>, day: int)
    requires OnDay(tickets, day) && |tickets| >= 1
    requires forall k :: k in tickets ==> IsTicket(k)
    ensures var names := SortedStrings(tickets.Keys);
      var pieces := Split(SummarizeTickets(tickets, day), ',');
      && |pieces| == |names| == |tickets|
      && forall i :: 0 <= i < |names| ==>
           names[i] in tickets
           && pieces[i] == (if i == 0 then "" else " ") + TicketItem(names[i], BucketSpan(tickets[names[i]], day))
  {
    var names := SortedStrings(tickets.Keys);
    assert forall i :: 0 <= i < |names| ==> names[i] in names;
    ItemsReadBack(tickets, day, names);
  }

  /** `SummarizeTicketsReadsBack` for any list of tickets of the day. */
  lemma ItemsReadBack(tickets: map<string, seq<Entry>>, day: int, names: seq<string>)
    requires OnDay(tickets, day) && |names| >= 1
    requires forall i :: 0 <= i < |names| ==> names[i] in tickets && IsTicket(names[i])
    ensures var pieces := Split(Join(TicketItems(tickets, day, names), ", "), ',');
      && |pieces| == |names|
      && forall i :: 0 <= i < |names| ==>
           pieces[i] == (if i == 0 then "" else " ") + TicketItem(names[i], BucketSpan(tickets[names[i]], day))
  {
    var items := TicketItems(tickets, day, names);
    TicketItemsAt(tickets, day, names);
    forall i | 0 <= i < |names|
      ensures ',' !in items[i]
    {
      PlainBucketSpan(tickets[names[i]], day);
      TicketItemReadsBack(names[i], BucketSpan(tickets[names[i]], day));
    }
    SplitJoinCommaSpace(items);
  }

  /** `s` ends with `t`. */
  predicate EndsWith(s: string, t: string) {
    |t| <= |s| && s[|s| - |t|..] == t
  }

  /** A header line: `head`, then a count and the word it counts, then `rest`. */
  function Line(head: string, n: nat, word: string, rest: string): string
  {
    head + NatToString(n) + " " + word + rest
  }

  /** The start of a repository's header: its directory name, indented, and a colon. */
  function Head(repo: string): string
  {
    "  " + Basename(repo) + ": "
  }

  /** The mention of a repository's only ticket at the end of its header. */
  function TicketNote(ticket: string): string
  {
    " (" + ticket + ")"
  }

  /**
   * What follows the commit count in a repository's header: nothing for a
   * single commit; otherwise " over SPAN", with " (TICKET)" appended when
   * the commits mention exactly one ticket.
   */
  function HeaderRest(ents: seq<Entry>, day: int): (rest: string)
    requires ents != [] && AllOnDay(ents, day)
    ensures rest == [] || rest[0] == ' '
  {
    if |ents| == 1 then ""
    else
      var over := " over " + BucketSpan(ents, day);
      var tickets := Groups(ents, TicketKeys);
      if |tickets| == 1 then over + TicketNote(Least(tickets.Keys)) else over
  }

  /**
   * The lines `print_day_summary` prints for one repository and its records
   * of the day: the header "  name: 1 commit" or "  name: N commits over
   * SPAN[ (TICKET)]", followed by the ticket list when several commits
   * mention several tickets.
   */
  function RepoLines(repo: string, ents: seq<Entry>, day: int): seq<string>
    requires ents != [] && AllOnDay(ents, day)
  {
    var header := Line(Head(repo), |ents|, if |ents| == 1 then "commit" else "commits", HeaderRest(ents, day));
    var tickets := Groups(ents, TicketKeys);
    if |ents| >= 2 && |tickets| >= 2 then
      GroupsOnDay(ents, TicketKeys, day);
      [header, "    " + SummarizeTickets(tickets, day)]
    else [header]
  }

  /** A header reads back: after `head`, its first word is the count's numeral and its second the word. */
  lemma LineReadsBack(head: string, n: nat, word: string, rest: string)
    requires ' ' !in word && (rest == [] || rest[0] == ' ')
    ensures var line := Line(head, n, word, rest);
      && |head| <= |line| && line[..|head|] == head
      && var words := Split(line[|head|..], ' ');
      && |words| >= 2 && AllDigits(words[0]) && ParseDecimal(words[0]) == n && words[1] == word
  {
    var line := Line(head, n, word, rest);
    var digits := NatToString(n);
    assert line == head + (digits + [' '] + (word + rest));
    assert line[|head|..] == digits + [' '] + (word + rest);
    assert forall i :: 0 <= i < |digits| ==> digits[i] != ' ';
    SplitAfterPiece(digits, ' ', word + rest);
    ParseNatToString(n);
    if rest == [] {
      assert word + rest == word;
      SplitNoSeparator(word, ' ');
    } else {
      assert word + rest == word + [' '] + rest[1..];
      SplitAfterPiece(word, ' ', rest[1..]);
    }
  }

  /** A header whose rest ends with `b` ends with `b`. */
  lemma LineEndsWith(head: string, n: nat, word: string, a: string, b: string)
    ensures EndsWith(Line(head, n, word, a + b), b)
  {
    var line := Line(head, n, word, a + b);
    assert line == (head + NatToString(n) + " " + word + a) + b;
  }

  /**
   * The first line of a repository's block names the repository by its
   * directory name and reports its number of commits ("commit" for one,
   * "commits" otherwise); a second line, the ticket list, appears exactly
   * when there are several commits mentioning several tickets.
   */
  lemma RepoLinesReadBack(repo: string, ents: seq<Entry>, day: int)
    requires ents != [] && AllOnDay(ents, day)
    ensures var lines := RepoLines(repo, ents, day);
      var head := Head(repo);
      && 1 <= |lines| <= 2
      && (|lines| == 2 <==> |ents| >= 2 && |Groups(ents, TicketKeys)| >= 2)
      && |head| <= |lines[0]| && lines[0][..|head|] == head
      && var words := Split(lines[0][|head|..], ' ');
      && |words| >= 2 && AllDigits(words[0]) && ParseDecimal(words[0]) == |ents|
      && words[1] == if |ents| == 1 then "commit" else "commits"
  {
    var head := Head(repo);
    var word := if |ents| == 1 then "commit" else "commits";
    var lines := RepoLines(repo, ents, day);
    RepoLinesShape(repo, ents, day);
    LineReadsBack(head, |ents|, word, HeaderRest(ents, day));
  }

  lemma RepoLinesShape(repo: string, ents: seq<Entry>, day: int)
    requires ents != [] && AllOnDay(ents, day)
    ensures var lines := RepoLines(repo, ents, day);
      && 1 <= |lines| <= 2
      && (|lines| == 2 <==> |ents| >= 2 && |Groups(ents, TicketKeys)| >= 2)
      && lines[0] == Line(Head(repo), |ents|, if |ents| == 1 then "commit" else "commits", HeaderRest(ents, day))
  {
  }

  /**
   * The whole first line: a single commit is "  name: 1 commit" and nothing
   * more; several commits are followed by " over SPAN" (just " over " when
   * the span is empty), then by " (TICKET)" exactly when the commits mention
   * one ticket. With several tickets, they are listed on a second line.
   */
  lemma RepoLinesTickets(repo: string, ents: seq<Entry>, day: int)
    requires ents != [] && AllOnDay(ents, day)
    ensures var lines := RepoLines(repo, ents, day);
      var tickets := Groups(ents, TicketKeys);
      var over := " over " + BucketSpan(ents, day);
      && (|ents| == 1 ==> lines == [Head(repo) + "1 commit"])
      && (|ents| >= 2 && |tickets| != 1 ==> lines[0] == Line(Head(repo), |ents|, "commits", over))
      && (|ents| >= 2 && |tickets| == 1 ==>
            var k := Least(tickets.Keys);
            && tickets.Keys == {k} && IsTicket(k)
            && lines[0] == Line(Head(repo), |ents|, "commits", over + TicketNote(k))
            && EndsWith(lines[0], TicketNote(k)))
      && (|ents| >= 2 && |tickets| >= 2 ==>
            OnDay(tickets, day) && lines[1] == "    " + SummarizeTickets(tickets, day))
  {
    var tickets := Groups(ents, TicketKeys);
    GroupsOnDay(ents, TicketKeys, day);
    RepoLinesShape(repo, ents, day);
    if |ents| == 1 {
      assert NatToString(1) == "1" && HeaderRest(ents, day) == "";
      assert Line(Head(repo), 1, "commit", "") == Head(repo) + "1 commit";
    }
    if |ents| >= 2 && |tickets| == 1 {
      var k := Least(tickets.Keys);
      OnlyKey(tickets.Keys, k);
      TicketMembers(ents, k, ents[0]);
      var head := Head(repo);
      LineEndsWith(head, |ents|, "commits", " over " + BucketSpan(ents, day), TicketNote(k));
    }
  }

  /** A set of one element is that element alone. */
  lemma OnlyKey(ks: set<string>, k: string)
    requires |ks| == 1 && k in ks
    ensures ks == {k}
  {
    assert |ks - {k}| == 0;
  }

  /** The blocks of the repositories in `order`, one after the other. */
  function RepoBlocks(repos: map<string, seq<Entry>>, order: seq<string>, day: int): seq<string>
    requires OnDay(repos, day)
    requires forall i :: 0 <= i < |order| ==> order[i] in repos
  {
    if order == [] then []
    else
      var last := order[|order| - 1];
      RepoBlocks(repos, order[..|order| - 1], day) + RepoLines(last, repos[last], day)
  }

  /** The whole summary of one day with its repositories in `order`: the date, then each repository's block. */
  function DaySummary(entries: seq<Entry>, date: Date, order: seq<string>): seq<string>
    requires date.Valid() && AllOnDay(entries, date.Epoch())
    requires forall i :: 0 <= i < |order| ==> order[i] in Groups(entries, RepoKeys)
  {
    GroupsOnDay(entries, RepoKeys, date.Epoch());
    [date.ToString()] + RepoBlocks(Groups(entries, RepoKeys), order, date.Epoch())
  }

  /**
   * The body of `print_day_summary`'s loop: the lines of one repository.
   * Its error branch, a repository without commits, is unreachable because
   * every list `group_by_repo` builds is non-empty.
   */
  method PrintRepo(repo: string, ents: seq<Entry>, day: int) returns (block: seq<string>)
    requires ents != [] && AllOnDay(ents, day)
    ensures block == RepoLines(repo, ents, day)
  {
    var head := Head(repo);
    var commits := |ents|;
    if commits == 0 {
      assert false;
    } else if commits == 1 {
      block := [Line(head, 1, "commit", "")];
    } else {
      TimespanOfBucket(ents, day);
      var span := CalculateTimespan(ents, day).value;
      var tickets := GroupByTicket(ents);
      var over := " over " + span;
      if |tickets| == 0 {
        block := [Line(head, commits, "commits", over)];
      } else if |tickets| == 1 {
        block := [Line(head, commits, "commits", over + TicketNote(Least(tickets.Keys)))];
      } else {
        GroupsOnDay(ents, TicketKeys, day);
        block := [Line(head, commits, "commits", over), "    " + SummarizeTickets(tickets, day)];
      }
    }
  }

  /**
   * `print_day_summary`: the date, then one block per repository, the
   * repositories in the (unspecified) order the dictionary is iterated in,
   * returned as `order`, which lists every repository of the day exactly once.
   */
  method PrintDaySummary(entries: seq<Entry>, date: Date) returns (lines: seq<string>, order: seq<string>)
    requires date.Valid() && AllOnDay(entries, date.Epoch())
    ensures Enumerates(order, Groups(entries, RepoKeys).Keys)
    ensures forall i :: 0 <= i < |order| ==> order[i] in Groups(entries, RepoKeys)
    ensures lines == DaySummary(entries, date, order)
  {
    var day := date.Epoch();
    var repos := GroupByRepo(entries);
    GroupsOnDay(entries, RepoKeys, day);
    var body: seq<string> := [];
    var remaining := repos.Keys;
    order := [];
    while remaining != {}
      invariant Visited(order, remaining, repos.Keys)
      invariant forall i :: 0 <= i < |order| ==> order[i] in repos
      invariant body == RepoBlocks(repos, order, day)
      decreases remaining
    {
      var repo :| repo in remaining;
      var block := PrintRepo(repo, repos[repo], day);
      RepoBlocksStep(repos, order, repo, day);
      VisitStep(order, remaining, repos.Keys, repo);
      body := body + block;
      order := order + [repo];
      remaining := remaining - {repo};
    }
    VisitDone(order, repos.Keys);
    lines := [date.ToString()] + body;
  }

  /** The repositories visited so far are `order`, each once, and the others are still `remaining`. */
  ghost predicate Visited(order: seq<string>, remaining: set<string>, keys: set<string>) {
    && remaining <= keys
    && (forall i :: 0 <= i < |order| ==> order[i] in keys && order[i] !in remaining)
    && (forall i, j :: 0 <= i < j < |order| ==> order[i] != order[j])
    && (forall k :: k in keys ==> k in remaining || k in order)
  }

  lemma VisitStep(order: seq<string>, remaining: set<string>, keys: set<string>, k: string)
    requires Visited(order, remaining, keys) && k in remaining
    ensures Visited(order + [k], remaining - {k}, keys)
  {
  }

  lemma VisitDone(order: seq<string>, keys: set<string>)
    requires Visited(order, {}, keys)
    ensures Enumerates(order, keys)
  {
  }

  lemma RepoBlocksStep(repos: map<string, seq<Entry>>, order: seq<string>, k: string, day: int)
    requires OnDay(repos, day) && k in repos
    requires forall i :: 0 <= i < |order| ==> order[i] in repos
    ensures forall i :: 0 <= i < |order + [k]| ==> (order + [k])[i] in repos
    ensures RepoBlocks(repos, order + [k], day) == RepoBlocks(repos, order, day) + RepoLines(k, repos[k], day)
  {
    assert (order + [k])[..|order|] == order;
  }

  /** The commit counts of a day's repository blocks add up to the number of the day's records. */
  lemma DaySummaryCommits(entries: seq<Entry>, order: seq<string>)
    requires Enumerates(order, Groups(entries, RepoKeys).Keys)
    ensures forall i :: 0 <= i < |order| ==> order[i] in Groups(entries, RepoKeys)
    ensures SumOver(Groups(entries, RepoKeys), order) == |entries|
  {
    EnumeratedTotal(Groups(entries, RepoKeys), order);
    RepoTotal(entries);
  }

  /** A line of the month chart: the date, then one star per record of the day. */
  function DensityLine(date: Date, count: nat): string
  {
    date.ToString() + " |" + Repeat('*', count)
  }

  /** The chart line splits at '|' into the date (and a space) and exactly `count` stars. */
  lemma DensityLineReadsBack(date: Date, count: nat)
    ensures var pieces := Split(DensityLine(date, count), '|');
      && pieces == [date.ToString() + " ", Repeat('*', count)]
      && |Repeat('*', count)| == count
  {
    var text := date.ToString();
    DateStringChars(date.year, date.month, date.day);
    assert '|' !in text + " ";
    assert '|' !in Repeat('*', count);
    assert DensityLine(date, count) == (text + " ") + ['|'] + Repeat('*', count);
    SplitAfterPiece(text + " ", '|', Repeat('*', count));
    SplitNoSeparator(Repeat('*', count), '|');
  }

  /** Whether every day of the month gets a chart line: the days 1..n of the month are consecutive days. */
  lemma ChartDays(year: nat, month: nat, i: nat)
    requires ValidMonth(year, month) && i < DaysInMonth(year, month)
    ensures Date(year, month, i + 1).Valid()
    ensures Date(year, month, i + 1).Epoch() == Date(year, month, 1).Epoch() + i
    decreases i
  {
    if i > 0 {
      ChartDays(year, month, i - 1);
      NextDay(year, month, i);
    }
  }

  /** The chart ends the day before the next month begins: no day of the month is left out. */
  lemma ChartCoversMonth(year: nat, month: nat)
    requires ValidMonth(year, month) && year < 9999
    ensures var n := DaysInMonth(year, month);
      var next := if month == 12 then EpochDay(year + 1, 1, 1) else EpochDay(year, month + 1, 1);
      Date(year, month, 1).Epoch() + n == next
  {
    NextMonthStart(year, month);
  }

  /** `order` names only repositories of the day's records. */
  predicate Fits(data: map<int, seq<Entry>>, date: Date, order: seq<string>)
    requires date.Valid()
  {
    forall i :: 0 <= i < |order| ==> order[i] in Groups(Lookup(data, date.Epoch()), RepoKeys)
  }

  /** Every bucket of `data` holds only records of its own day: what `group_by_day` builds. */
  predicate ByDay(data: map<int, seq<Entry>>) {
    forall d :: d in data ==> AllOnDay(data[d], d)
  }

  /**
   * Day `i + 1` of the month is reported with its repositories in `order`:
   * `order` names only the day's repositories, and all of them, each once,
   * when the day has records.
   */
  ghost predicate DayDone(data: map<int, seq<Entry>>, year: nat, month: nat, i: nat, order: seq<string>)
    requires ValidMonth(year, month) && i < DaysInMonth(year, month)
  {
    var date := Date(year, month, i + 1);
    && Fits(data, date, order)
    && (Lookup(data, date.Epoch()) != [] ==> Enumerates(order, Groups(Lookup(data, date.Epoch()), RepoKeys).Keys))
  }

  /** The day summaries of days 1..k of the month, each present only when that day has records. */
  function DayReports(data: map<int, seq<Entry>>, year: nat, month: nat, orders: seq<seq<string>>, k: nat): seq<string>
    requires ValidMonth(year, month) && ByDay(data)
    requires k <= DaysInMonth(year, month) && k <= |orders|
    requires forall i :: 0 <= i < k ==> Fits(data, Date(year, month, i + 1), orders[i])
  {
    if k == 0 then []
    else
      var date := Date(year, month, k);
      var entries := Lookup(data, date.Epoch());
      assert Fits(data, Date(year, month, (k - 1) + 1), orders[k - 1]);
      DayReports(data, year, month, orders, k - 1)
        + (if entries == [] then [] else DaySummary(entries, date, orders[k - 1]))
  }

  lemma {:induction false} DayReportsPrefix(data: map<int, seq<Entry>>, year: nat, month: nat, orders: seq<seq<string>>, more: seq<string>, k: nat)
    requires ValidMonth(year, month) && ByDay(data)
    requires k <= DaysInMonth(year, month) && k <= |orders|
    requires forall i :: 0 <= i < k ==> Fits(data, Date(year, month, i + 1), orders[i])
    ensures DayReports(data, year, month, orders + [more], k) == DayReports(data, year, month, orders, k)
    decreases k
  {
    if k > 0 {
      DayReportsPrefix(data, year, month, orders, more, k - 1);
      assert (orders + [more])[k - 1] == orders[k - 1];
    }
  }

  /** Day `i + 1` of the month has no records. */
  predicate NoRecords(data: map<int, seq<Entry>>, year: nat, month: nat, i: nat)
    requires ValidMonth(year, month) && i < DaysInMonth(year, month)
  {
    Lookup(data, Date(year, month, i + 1).Epoch()) == []
  }

  /** Days without records contribute no day summary: a month with no data reports no day at all. */
  lemma {:induction false} NoRecordsNoReports(data: map<int, seq<Entry>>, year: nat, month: nat, orders: seq<seq<string>>, k: nat)
    requires ValidMonth(year, month) && ByDay(data)
    requires k <= DaysInMonth(year, month) && k <= |orders|
    requires forall i :: 0 <= i < k ==> Fits(data, Date(year, month, i + 1), orders[i])
    requires forall i :: 0 <= i < k ==> NoRecords(data, year, month, i)
    ensures DayReports(data, year, month, orders, k) == []
    decreases k
  {
    if k > 0 {
      NoRecordsNoReports(data, year, month, orders, k - 1);
      assert NoRecords(data, year, month, k - 1);
      assert Lookup(data, Date(year, month, k).Epoch()) == [];
    }
  }

  /**
   * `print_summary`: a chart line for every day of the month, then the
   * summary of every day of the month that has records, in date order; each
   * day's repositories come in the order `orders` records for that day.
   */
  method PrintSummary(data: map<int, seq<Entry>>, year: nat, month: nat)
      returns (lines: seq<string>, orders: seq<seq<string>>)
    requires ValidMonth(year, month) && ByDay(data)
    ensures var n := DaysInMonth(year, month);
      && |orders| == n && |lines| >= n
      && (forall i :: 0 <= i < n ==>
            lines[i] == DensityLine(Date(year, month, i + 1), |Lookup(data, Date(year, month, i + 1).Epoch())|))
      && (forall i :: 0 <= i < n ==> DayDone(data, year, month, i, orders[i]))
      && lines[n..] == DayReports(data, year, month, orders, n)
    ensures var n := DaysInMonth(year, month);
      (forall i :: 0 <= i < n ==> NoRecords(data, year, month, i)) ==> |lines| == n
  {
    var chart := PrintChart(data, year, month);
    var reports;
    reports, orders := PrintDays(data, year, month);
    lines := chart + reports;
    assert lines[..|chart|] == chart && lines[|chart|..] == reports;
    var n := DaysInMonth(year, month);
    if forall i :: 0 <= i < n ==> NoRecords(data, year, month, i) {
      NoRecordsNoReports(data, year, month, orders, n);
    }
  }

  /** The density chart: one line per day of the month, in order. */
  method PrintChart(data: map<int, seq<Entry>>, year: nat, month: nat) returns (chart: seq<string>)
    requires ValidMonth(year, month)
    ensures var n := DaysInMonth(year, month);
      && |chart| == n
      && forall i :: 0 <= i < n ==>
           chart[i] == DensityLine(Date(year, month, i + 1), |Lookup(data, Date(year, month, i + 1).Epoch())|)
  {
    var n := DaysInMonth(year, month);
    chart := [];
    for d := 1 to n + 1
      invariant |chart| == d - 1
      invariant forall i :: 0 <= i < d - 1 ==>
        chart[i] == DensityLine(Date(year, month, i + 1), |Lookup(data, Date(year, month, i + 1).Epoch())|)
    {
      var date := Date(year, month, d);
      var entries := Lookup(data, date.Epoch());
      chart := chart + [date.ToString() + " |" + Repeat('*', |entries|)];
    }
  }

  /** The day summaries of the month, in date order, for the days that have records. */
  method PrintDays(data: map<int, seq<Entry>>, year: nat, month: nat)
      returns (reports: seq<string>, orders: seq<seq<string>>)
    requires ValidMonth(year, month) && ByDay(data)
    ensures var n := DaysInMonth(year, month);
      && |orders| == n
      && (forall i :: 0 <= i < n ==> DayDone(data, year, month, i, orders[i]))
      && reports == DayReports(data, year, month, orders, n)
  {
    var n := DaysInMonth(year, month);
    reports := [];
    orders := [];
    for d := 1 to n + 1
      invariant |orders| == d - 1
      invariant forall i :: 0 <= i < d - 1 ==> DayDone(data, year, month, i, orders[i])
      invariant reports == DayReports(data, year, month, orders, d - 1)
    {
      var block;
      var order;
      block, order := PrintDay(data, year, month, d);
      DayReportsStep(data, year, month, orders, order, block);
      reports := reports + block;
      orders := orders + [order];
    }
  }

  /** Day `d` of the month: its summary when it has records, nothing otherwise. */
  method PrintDay(data: map<int, seq<Entry>>, year: nat, month: nat, d: nat)
      returns (block: seq<string>, order: seq<string>)
    requires ValidMonth(year, month) && ByDay(data) && 1 <= d <= DaysInMonth(year, month)
    ensures var date := Date(year, month, d);
      var entries := Lookup(data, date.Epoch());
      && (entries == [] ==> order == [] && block == [])
      && (entries != [] ==>
            && Enumerates(order, Groups(entries, RepoKeys).Keys)
            && (forall i :: 0 <= i < |order| ==> order[i] in Groups(entries, RepoKeys))
            && block == DaySummary(entries, date, order))
  {
    var date := Date(year, month, d);
    var entries := Lookup(data, date.Epoch());
    order := [];
    block := [];
    if entries != [] {
      block, order := PrintDaySummary(entries, date);
    }
  }

  /** One more day of the month: its summary, if it has records, follows those of the days before. */
  lemma DayReportsStep(data: map<int, seq<Entry>>, year: nat, month: nat, orders: seq<seq<string>>,
                       order: seq<string>, block: seq<string>)
    requires ValidMonth(year, month) && ByDay(data) && |orders| < DaysInMonth(year, month)
    requires forall i :: 0 <= i < |orders| ==> DayDone(data, year, month, i, orders[i])
    requires forall i :: 0 <= i < |orders| ==> Fits(data, Date(year, month, i + 1), orders[i])
    requires var date := Date(year, month, |orders| + 1);
      var entries := Lookup(data, date.Epoch());
      && (entries == [] ==> order == [] && block == [])
      && (entries != [] ==>
            && Enumerates(order, Groups(entries, RepoKeys).Keys)
            && (forall i :: 0 <= i < |order| ==> order[i] in Groups(entries, RepoKeys))
            && block == DaySummary(entries, date, order))
    ensures forall i :: 0 <= i < |orders| + 1 ==> DayDone(data, year, month, i, (orders + [order])[i])
    ensures forall i :: 0 <= i < |orders| + 1 ==> Fits(data, Date(year, month, i + 1), (orders + [order])[i])
    ensures DayReports(data, year, month, orders + [order], |orders| + 1)
      == DayReports(data, year, month, orders, |orders|) + block
  {
    var k := |orders|;
    assert DayDone(data, year, month, k, order);
    forall i | 0 <= i < k + 1
      ensures DayDone(data, year, month, i, (orders + [order])[i])
    {
      if i < k {
        assert (orders + [order])[i] == orders[i];
      }
    }
    DayReportsPrefix(data, year, month, orders, order, k);
  }

  /** The number of records that count on `day`, counted one by one. */
  function CountOn(entries: seq<Entry>, day: int): nat
  {
    if entries == [] then 0
    else CountOn(entries[..|entries| - 1], day) + (if day in EntryDays(entries[|entries| - 1]) then 1 else 0)
  }

  lemma {:induction false} BucketCountsOn(entries: seq<Entry>, day: int)
    ensures |Bucket(entries, EntryDays, day)| == CountOn(entries, day)
    decreases |entries|
  {
    if entries != [] {
      BucketCountsOn(entries[..|entries| - 1], day);
    }
  }

  /**
   * Fed the output of `group_by_day`, the summary's requirement holds, and
   * the chart line of a day has one star for each record that counts on
   * that day.
   */
  lemma ChartOfGroupedDays(entries: seq<Entry>, day: int)
    ensures ByDay(Groups(entries, EntryDays))
    ensures |Lookup(Groups(entries, EntryDays), day)| == CountOn(entries, day)
  {
    forall d | d in Groups(entries, EntryDays)
      ensures AllOnDay(Groups(entries, EntryDays)[d], d)
    {
      DailyOnTheirDay(entries, d);
    }
    if day !in Groups(entries, EntryDays) {
      BucketOutsideKeys(entries, EntryDays, day);
    }
    BucketCountsOn(entries, day);
  }
}
