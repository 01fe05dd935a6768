/**
 * `group_by_day`, `group_by_repo` and `group_by_ticket`: each walks the
 * records in order and appends every record to the `defaultdict(list)`
 * bucket of each of its keys. Each method is proved to build
 * `Groups(entries, keys)` for its own key function; what that dictionary
 * holds is stated by the lemmas below.
 */
module Grouping {
  import opened Text
  import opened Calendar
  import opened Buckets
  import opened Entries
  import opened Tickets

  /** A record's repository bucket. */
  function RepoKeys(e: Entry): set<string> {
    {e.repo}
  }

  /** A record's ticket bucket: the ticket its summary mentions, or none. */
  function TicketKeys(e: Entry): set<string> {
    match FindTicket(e.summary)
    case Some(k) => {k}
    case None => {}
  }

  /** `group_by_day`: every record is appended to the bucket of each of its (one or two) days. */
  method GroupByDay(entries: seq<Entry>) returns (daily: map<int, seq<Entry>>)
    ensures daily == Groups(entries, EntryDays)
  {
    daily := map[];
    for i := 0 to |entries|
      invariant daily == Groups(entries[..i], EntryDays)
    {
      var entry := entries[i];
      GroupsStep(entries, i, EntryDays);
      daily := AppendToDays(daily, entry);
    }
    assert entries[..|entries|] == entries;
  }

  /** The inner loop of `group_by_day`: append `entry` to the bucket of each of its days. */
  method AppendToDays(daily: map<int, seq<Entry>>, entry: Entry) returns (r: map<int, seq<Entry>>)
    ensures r == AppendTo(daily, EntryDays(entry), entry)
  {
    r := daily;
    var todo := EntryDays(entry);
    ghost var done: set<int> := {};
    AppendToNone(daily, entry);
    while todo != {}
      invariant done !! todo && done + todo == EntryDays(entry)
      invariant r == AppendTo(daily, done, entry)
      decreases todo
    {
      var day :| day in todo;
      AppendToOneMore(daily, done, day, entry);
      r := r[day := Lookup(r, day) + [entry]];
      todo := todo - {day};
      done := done + {day};
    }
  }

  /** `group_by_repo`: every record is appended to the bucket of its repository. */
  method GroupByRepo(entries: seq<Entry>) returns (repos: map<string, seq<Entry>>)
    ensures repos == Groups(entries, RepoKeys)
  {
    repos := map[];
    for i := 0 to |entries|
      invariant repos == Groups(entries[..i], RepoKeys)
    {
      var entry := entries[i];
      GroupsStep(entries, i, RepoKeys);
      AppendToNone(repos, entry);
      AppendToOneMore(repos, {}, entry.repo, entry);
      assert {} + {entry.repo} == RepoKeys(entry);
      repos := repos[entry.repo := Lookup(repos, entry.repo) + [entry]];
    }
    assert entries[..|entries|] == entries;
  }

  /** `group_by_ticket`: a record whose summary mentions a ticket is appended to that ticket's bucket. */
  method GroupByTicket(entries: seq<Entry>) returns (tickets: map<string, seq<Entry>>)
    ensures tickets == Groups(entries, TicketKeys)
  {
    tickets := map[];
    for i := 0 to |entries|
      invariant tickets == Groups(entries[..i], TicketKeys)
    {
      var entry := entries[i];
      GroupsStep(entries, i, TicketKeys);
      AppendToNone(tickets, entry);
      var found := FindTicket(entry.summary);
      if found.Some? {
        AppendToOneMore(tickets, {}, found.value, entry);
        assert {} + {found.value} == TicketKeys(entry);
        tickets := tickets[found.value := Lookup(tickets, found.value) + [entry]];
      }
    }
    assert entries[..|entries|] == entries;
  }

  /**
   * The records read back from a log (the last summary stripped of its
   * trailing whitespace) mention the same tickets as those git wrote, so
   * `group_by_ticket` uses the same key for each of them.
   */
  lemma ReadBackSameTickets(es: seq<Entry>)
    requires es != []
    ensures |StripLastSummary(es)| == |es|
    ensures forall i :: 0 <= i < |es| ==> TicketKeys(StripLastSummary(es)[i]) == TicketKeys(es[i])
  {
    var trimmed := StripLastSummary(es);
    var n := |es|;
    forall i | 0 <= i < n
      ensures TicketKeys(trimmed[i]) == TicketKeys(es[i])
    {
      if i < n - 1 {
        assert trimmed[i] == es[..n - 1][i];
      } else {
        FindTicketIgnoresTrailingSpace(es[i].summary);
      }
    }
  }

  /** How many records have their authored and committed timestamps on different days. */
  function SpanningTwoDays(entries: seq<Entry>): nat
  {
    |Filter(entries, (e: Entry) => DayOf(e.authored) != DayOf(e.committed))|
  }

  lemma {:induction false} DayMemberships(entries: seq<Entry>)
    ensures Memberships(entries, EntryDays) == |entries| + SpanningTwoDays(entries)
    decreases |entries|
  {
    if entries != [] {
      var init, last := entries[..|entries| - 1], entries[|entries| - 1];
      DayMemberships(init);
      assert entries == init + [last];
      FilterAppend(init, last, (e: Entry) => DayOf(e.authored) != DayOf(e.committed));
    }
  }

  /**
   * A record is in the bucket of day `d` exactly when `d` is its authored or
   * its committed day, and as often as it occurs in the input.
   */
  lemma DailyMembers(entries: seq<Entry>, d: int, x: Entry)
    ensures var bucket := Lookup(Groups(entries, EntryDays), d);
      && (x in bucket <==> x in entries && (d == DayOf(x.authored) || d == DayOf(x.committed)))
      && multiset(bucket)[x] == if d in EntryDays(x) then multiset(entries)[x] else 0
  {
    GroupsMembers(entries, EntryDays, d, x);
    GroupsCount(entries, EntryDays, d, x);
  }

  /** Every bucket of the day dictionary is non-empty and holds only records that count on its day. */
  lemma DailyOnTheirDay(entries: seq<Entry>, d: int)
    requires d in Groups(entries, EntryDays)
    ensures Groups(entries, EntryDays)[d] != []
    ensures AllOnDay(Groups(entries, EntryDays)[d], d)
  {
    GroupsNonEmpty(entries, EntryDays, d);
    forall x | x in Groups(entries, EntryDays)[d]
      ensures d in EntryDays(x)
    {
      GroupsMembers(entries, EntryDays, d, x);
    }
  }

  /**
   * The day buckets hold one entry per record plus one more per record whose
   * authored and committed timestamps fall on different days.
   */
  lemma DailyTotal(entries: seq<Entry>)
    ensures TotalSize(Groups(entries, EntryDays)) == |entries| + SpanningTwoDays(entries)
  {
    GroupsPartition(entries, EntryDays);
    DayMemberships(entries);
  }

  lemma {:induction false} RepoMemberships(entries: seq<Entry>)
    ensures Memberships(entries, RepoKeys) == |entries|
    decreases |entries|
  {
    if entries != [] {
      RepoMemberships(entries[..|entries| - 1]);
    }
  }

  /**
   * `group_by_repo` puts each record in the bucket of its own repository and
   * nowhere else, and every bucket is non-empty, so the "no commits" error of
   * the day summary is never raised.
   */
  lemma RepoMembers(entries: seq<Entry>, k: string, x: Entry)
    ensures x in Lookup(Groups(entries, RepoKeys), k) <==> x in entries && x.repo == k
    ensures k in Groups(entries, RepoKeys) <==> exists e :: e in entries && e.repo == k
    ensures k in Groups(entries, RepoKeys) ==> Groups(entries, RepoKeys)[k] != []
  {
    GroupsMembers(entries, RepoKeys, k, x);
    if k in Groups(entries, RepoKeys) {
      GroupsNonEmpty(entries, RepoKeys, k);
    }
  }

  /** `group_by_repo` partitions its input: the bucket lengths add up to the number of records. */
  lemma RepoTotal(entries: seq<Entry>)
    ensures TotalSize(Groups(entries, RepoKeys)) == |entries|
  {
    GroupsPartition(entries, RepoKeys);
    RepoMemberships(entries);
  }

  /**
   * `group_by_ticket`: a record is in the bucket of `k` exactly when `k` is
   * the ticket its summary's search finds, so a record whose summary mentions
   * no ticket is in no bucket; every key is a ticket with a non-empty bucket.
   */
  lemma TicketMembers(entries: seq<Entry>, k: string, x: Entry)
    ensures x in Lookup(Groups(entries, TicketKeys), k) <==> x in entries && FindTicket(x.summary) == Some(k)
    ensures k in Groups(entries, TicketKeys) ==> Groups(entries, TicketKeys)[k] != [] && IsTicket(k)
  {
    var tickets := Groups(entries, TicketKeys);
    GroupsMembers(entries, TicketKeys, k, x);
    if k in tickets {
      GroupsNonEmpty(entries, TicketKeys, k);
      var y: Entry := tickets[k][0];
      assert y in tickets[k];
      GroupsMembers(entries, TicketKeys, k, y);
      FoundIsTicket(y.summary);
    }
  }

  /** A record is in at most one ticket bucket. */
  lemma TicketBucketsDisjoint(entries: seq<Entry>, k1: string, k2: string, x: Entry)
    requires k1 != k2
    ensures !(x in Lookup(Groups(entries, TicketKeys), k1) && x in Lookup(Groups(entries, TicketKeys), k2))
  {
    TicketMembers(entries, k1, x);
    TicketMembers(entries, k2, x);
  }

  /** Grouping the records of one day's bucket gives buckets that are all on that day. */
  lemma BucketsStayOnDay(entries: seq<Entry>, keys: Entry -> set<string>, day: int, k: string)
    requires AllOnDay(entries, day)
    requires k in Groups(entries, keys)
    ensures AllOnDay(Groups(entries, keys)[k], day)
  {
    forall x | x in Groups(entries, keys)[k]
      ensures day in EntryDays(x)
    {
      GroupsMembers(entries, keys, k, x);
    }
  }
}
