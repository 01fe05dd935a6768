/**
 * The commit record (`Entry`), the UTC days a record counts on, and the
 * reading of one repository's `git log` output into records.
 */
module Entries {
  import opened Text
  import opened Calendar

  /**
   * One commit: its repository (a path), its authored and committed Unix
   * timestamps in whole seconds, and the first line of its message.
   */
  datatype Entry = Entry(repo: string, authored: int, committed: int, summary: string)

  /** `get_entry_days`: the UTC days of the authored and of the committed timestamp. */
  function EntryDays(e: Entry): set<int>
  {
    {DayOf(e.authored), DayOf(e.committed)}
  }

  /**
   * A record counts on day `d` exactly when one of its two timestamps falls
   * within `d`'s 86400 seconds; it counts on one day, or on two when the
   * timestamps fall on different days.
   */
  lemma EntryDaysMeaning(e: Entry, d: int)
    ensures d in EntryDays(e) <==>
      (d * SecondsPerDay <= e.authored < (d + 1) * SecondsPerDay
       || d * SecondsPerDay <= e.committed < (d + 1) * SecondsPerDay)
    ensures |EntryDays(e)| == if DayOf(e.authored) == DayOf(e.committed) then 1 else 2
  {
    DayOfBounds(e.authored, d);
    DayOfBounds(e.committed, d);
  }

  /** Every record of `entries` counts on `day`: what a day's bucket holds. */
  predicate AllOnDay(entries: seq<Entry>, day: int) {
    forall e :: e in entries ==> day in EntryDays(e)
  }

  /**
   * One line of log output, `authored NUL committed NUL summary`, as a record
   * of `repo`. `None` where the source raises: a line that does not split
   * into exactly three fields makes `Entry(repo, *fields)` fail. A timestamp
   * that is not an integer numeral is rejected as well; the source fails on it
   * only where `float()` does, but git's `%at` and `%ct` print integer
   * numerals only.
   */
  function ParseLine(repo: string, line: string): (r: Option<Entry>)
    ensures var f := Split(line, '\0');
      r.Some? <==> |f| == 3 && ParseInt(f[0]).Some? && ParseInt(f[1]).Some?
    ensures r.Some? ==> var f := Split(line, '\0');
      && ParseInt(f[0]) == Some(r.value.authored) && ParseInt(f[1]) == Some(r.value.committed)
      && r.value.summary == f[2]
    ensures r.Some? ==> r.value.repo == repo && '\0' !in r.value.summary
  {
    var fields := Split(line, '\0');
    if |fields| != 3 then None
    else
      match (ParseInt(fields[0]), ParseInt(fields[1]))
      case (Some(authored), Some(committed)) => Some(Entry(repo, authored, committed, fields[2]))
      case _ => None
  }

  function ParseLines(repo: string, lines: seq<string>): (r: Option<seq<Entry>>)
    ensures r.Some? ==> |r.value| == |lines|
    ensures r.Some? ==> forall i :: 0 <= i < |lines| ==> ParseLine(repo, lines[i]) == Some(r.value[i])
    ensures r.None? ==> exists i :: 0 <= i < |lines| && ParseLine(repo, lines[i]).None?
  {
    if lines == [] then Some([])
    else
      match (ParseLine(repo, lines[0]), ParseLines(repo, lines[1..]))
      case (Some(e), Some(rest)) => Some([e] + rest)
      case (None, _) => None
      case (_, None) => None
  }

  /**
   * The records in `log`, the output of `git log` for `repo` (`None` when the
   * command failed): no output gives no records; otherwise the output is
   * stripped of surrounding whitespace and split into lines.
   */
  function GetEntries(repo: string, log: Option<string>): Option<seq<Entry>>
  {
    match log
    case None => Some([])
    case Some(text) =>
      if text == [] then Some([])
      else ParseLines(repo, Split(Strip(text), '\n'))
  }

  /** The log line git writes for a record. */
  function FormatLine(e: Entry): string
  {
    IntToString(e.authored) + "\0" + IntToString(e.committed) + "\0" + e.summary
  }

  /** A record git can write so that it reads back unchanged. */
  predicate Writable(repo: string, e: Entry) {
    && e.repo == repo && '\n' !in e.summary && '\0' !in e.summary
  }

  /** The whole output of `git log` for the records `es`, one line each. */
  function FormatLog(repo: string, es: seq<Entry>): string
    requires forall i :: 0 <= i < |es| ==> Writable(repo, es[i])
  {
    Join(FormatLines(repo, es), "\n") + "\n"
  }

  function FormatLines(repo: string, es: seq<Entry>): (lines: seq<string>)
    requires forall i :: 0 <= i < |es| ==> Writable(repo, es[i])
    ensures |lines| == |es| && forall i :: 0 <= i < |es| ==> lines[i] == FormatLine(es[i])
  {
    if es == [] then [] else [FormatLine(es[0])] + FormatLines(repo, es[1..])
  }

  lemma ParseFormatLine(repo: string, e: Entry)
    requires Writable(repo, e)
    ensures '\n' !in FormatLine(e)
    ensures ParseLine(repo, FormatLine(e)) == Some(e)
  {
    var a, c := IntToString(e.authored), IntToString(e.committed);
    var parts := [a, c, e.summary];
    assert parts[1..] == [c, e.summary] && parts[1..][1..] == [e.summary];
    calc {
      Join(parts, "\0");
      a + "\0" + Join([c, e.summary], "\0");
      a + "\0" + (c + "\0" + e.summary);
      FormatLine(e);
    }
    assert forall i :: 0 <= i < |parts| ==> '\0' !in parts[i];
    SplitJoin(parts, '\0');
    ParseIntToString(e.authored);
    ParseIntToString(e.committed);
    assert '\n' !in a && '\n' !in c;
  }

  lemma {:induction false} ParseFormatLines(repo: string, es: seq<Entry>)
    requires forall i :: 0 <= i < |es| ==> Writable(repo, es[i])
    ensures ParseLines(repo, FormatLines(repo, es)) == Some(es)
    decreases |es|
  {
    if es != [] {
      var first, others := FormatLine(es[0]), FormatLines(repo, es[1..]);
      assert FormatLines(repo, es) == [first] + others;
      ParseFormatLine(repo, es[0]);
      ParseFormatLines(repo, es[1..]);
      ParseLinesCons(repo, first, others, es[0], es[1..]);
      assert [es[0]] + es[1..] == es;
    }
  }

  /** The log parses to a first record and the rest when its first line and the other lines do. */
  lemma ParseLinesCons(repo: string, first: string, others: seq<string>, e: Entry, rest: seq<Entry>)
    requires ParseLine(repo, first) == Some(e) && ParseLines(repo, others) == Some(rest)
    ensures ParseLines(repo, [first] + others) == Some([e] + rest)
  {
    assert ([first] + others)[0] == first && ([first] + others)[1..] == others;
  }

  /** A written line starts with the authored numeral and ends as its summary does. */
  lemma FormatLineEnds(e: Entry)
    ensures var line := FormatLine(e);
      && line != [] && !IsSpace(line[0])
      && (e.summary == [] || !IsSpace(e.summary[|e.summary| - 1]) ==> !IsSpace(line[|line| - 1]))
  {
    var a := IntToString(e.authored);
    assert a[0] == '-' || IsDigit(a[0]);
    assert FormatLine(e)[0] == a[0];
  }

  /** The records as `strip()` leaves them: the last summary loses its trailing whitespace. */
  function StripLastSummary(es: seq<Entry>): seq<Entry>
    requires es != []
  {
    var last := es[|es| - 1];
    es[..|es| - 1] + [last.(summary := StripRight(last.summary))]
  }

  /**
   * Reading back what git writes gives back the records, in order, except
   * that the source's `strip()` of the whole output removes the trailing
   * whitespace of the last summary (git pads summaries to 80 columns, so
   * the last one usually has some); a last summary that does not end in
   * whitespace comes back unchanged.
   */
  lemma ParseFormatLog(repo: string, es: seq<Entry>)
    requires es != [] && forall i :: 0 <= i < |es| ==> Writable(repo, es[i])
    ensures GetEntries(repo, Some(FormatLog(repo, es))) == Some(StripLastSummary(es))
    ensures var last := es[|es| - 1].summary;
      last == [] || !IsSpace(last[|last| - 1]) ==> StripLastSummary(es) == es
  {
    var trimmed := StripLastSummary(es);
    StripLog(repo, es);
    SplitFormatLines(repo, trimmed);
    assert FormatLog(repo, es) != [];
    UnpaddedUnchanged(es);
  }

  /** The joined lines git writes split back into those lines, which parse back to the records. */
  lemma SplitFormatLines(repo: string, es: seq<Entry>)
    requires es != [] && forall i :: 0 <= i < |es| ==> Writable(repo, es[i])
    ensures ParseLines(repo, Split(Join(FormatLines(repo, es), "\n"), '\n')) == Some(es)
  {
    var lines := FormatLines(repo, es);
    forall i | 0 <= i < |lines|
      ensures '\n' !in lines[i]
    {
      ParseFormatLine(repo, es[i]);
    }
    SplitJoin(lines, '\n');
    ParseFormatLines(repo, es);
  }

  /** A last summary that does not end in whitespace is left as it is. */
  lemma UnpaddedUnchanged(es: seq<Entry>)
    requires es != []
    ensures var last := es[|es| - 1].summary;
      last == [] || !IsSpace(last[|last| - 1]) ==> StripLastSummary(es) == es
  {
    var last := es[|es| - 1];
    if last.summary == [] || !IsSpace(last.summary[|last.summary| - 1]) {
      assert last.(summary := StripRight(last.summary)) == last;
      assert es[..|es| - 1] + [last] == es;
    }
  }

  /**
   * Stripping the last summary keeps every record writable, leaves the
   * others alone, and takes off only whitespace: the last record is the
   * trimmed one with that whitespace `w` put back.
   */
  lemma TrimmedWritable(repo: string, es: seq<Entry>)
    requires es != [] && forall i :: 0 <= i < |es| ==> Writable(repo, es[i])
    ensures var trimmed := StripLastSummary(es);
      var n := |es|;
      var summary := es[n - 1].summary;
      var w := summary[|StripRight(summary)|..];
      && |trimmed| == n && (forall i :: 0 <= i < n - 1 ==> es[i] == trimmed[i])
      && (forall i :: 0 <= i < n ==> Writable(repo, trimmed[i]))
      && (var last := trimmed[n - 1].summary; last == [] || !IsSpace(last[|last| - 1]))
      && es[n - 1] == trimmed[n - 1].(summary := trimmed[n - 1].summary + w)
      && forall i :: 0 <= i < |w| ==> IsSpace(w[i])
  {
    var n := |es|;
    var trimmed := StripLastSummary(es);
    var summary := es[n - 1].summary;
    TrailingSpace(summary);
    forall i | 0 <= i < n - 1
      ensures es[i] == trimmed[i]
    {
      assert trimmed[i] == es[..n - 1][i];
    }
  }

  /** `strip()` of the whole log leaves the lines git writes for the trimmed records, joined. */
  lemma {:induction false} StripLog(repo: string, es: seq<Entry>)
    requires es != [] && forall i :: 0 <= i < |es| ==> Writable(repo, es[i])
    ensures var trimmed := StripLastSummary(es);
      (forall i :: 0 <= i < |trimmed| ==> Writable(repo, trimmed[i]))
      && Strip(FormatLog(repo, es)) == Join(FormatLines(repo, trimmed), "\n")
  {
    var trimmed := StripLastSummary(es);
    var summary := es[|es| - 1].summary;
    var w := summary[|StripRight(summary)|..];
    JoinedLog(repo, es);
    LogBodyEnds(repo, trimmed);
    StripPadded(Join(FormatLines(repo, trimmed), "\n"), w);
  }

  /** The lines git writes for the records, joined, are those for the trimmed records followed by the stripped whitespace. */
  lemma {:induction false} JoinedLog(repo: string, es: seq<Entry>)
    requires es != [] && forall i :: 0 <= i < |es| ==> Writable(repo, es[i])
    ensures var trimmed := StripLastSummary(es);
      var summary := es[|es| - 1].summary;
      var w := summary[|StripRight(summary)|..];
      && trimmed != [] && |trimmed| == |es|
      && (forall i :: 0 <= i < |trimmed| ==> Writable(repo, trimmed[i]))
      && (var last := trimmed[|trimmed| - 1].summary; last == [] || !IsSpace(last[|last| - 1]))
      && (forall i :: 0 <= i < |w| ==> IsSpace(w[i]))
      && Join(FormatLines(repo, es), "\n") == Join(FormatLines(repo, trimmed), "\n") + w
  {
    var trimmed := StripLastSummary(es);
    var summary := es[|es| - 1].summary;
    var w := summary[|StripRight(summary)|..];
    TrimmedWritable(repo, es);
    FormatLineExtended(es[|es| - 1], trimmed[|es| - 1], w);
    TrimmedLines(repo, es, trimmed, w);
    JoinExtendLast(FormatLines(repo, trimmed), "\n", w);
  }

  /**
   * Records that differ only by `w` at the end of the last summary are
   * written as the same lines, with `w` at the end of the last.
   */
  lemma {:induction false} TrimmedLines(repo: string, es: seq<Entry>, trimmed: seq<Entry>, w: string)
    requires |es| == |trimmed| >= 1 && forall i :: 0 <= i < |es| - 1 ==> es[i] == trimmed[i]
    requires FormatLine(es[|es| - 1]) == FormatLine(trimmed[|es| - 1]) + w
    requires forall i :: 0 <= i < |es| ==> Writable(repo, es[i])
    requires forall i :: 0 <= i < |trimmed| ==> Writable(repo, trimmed[i])
    ensures var lines' := FormatLines(repo, trimmed);
      FormatLines(repo, es) == lines'[..|es| - 1] + [lines'[|es| - 1] + w]
  {
    var n := |es|;
    var lines, lines' := FormatLines(repo, es), FormatLines(repo, trimmed);
    SameLinesBefore(repo, es, trimmed, n - 1);
    assert lines[n - 1] == FormatLine(es[n - 1]) && lines'[n - 1] == FormatLine(trimmed[n - 1]);
    ExtendLastEq(lines, lines', |es|, w);
  }

  /** Records that agree before `k` are written as lines that agree before `k`. */
  lemma SameLinesBefore(repo: string, es: seq<Entry>, others: seq<Entry>, k: nat)
    requires |es| == |others| && k <= |es| && forall i :: 0 <= i < k ==> es[i] == others[i]
    requires forall i :: 0 <= i < |es| ==> Writable(repo, es[i])
    requires forall i :: 0 <= i < |others| ==> Writable(repo, others[i])
    ensures forall i :: 0 <= i < k ==> FormatLines(repo, es)[i] == FormatLines(repo, others)[i]
  {
  }

  /** Text added to the end of a summary ends up at the end of its line. */
  lemma FormatLineExtended(e: Entry, t: Entry, w: string)
    requires e == t.(summary := t.summary + w)
    ensures FormatLine(e) == FormatLine(t) + w
  {
  }

  /** The lines git writes, joined, start and end with a character `strip()` keeps. */
  lemma {:induction false} LogBodyEnds(repo: string, es: seq<Entry>)
    requires es != [] && forall i :: 0 <= i < |es| ==> Writable(repo, es[i])
    requires var last := es[|es| - 1].summary; last == [] || !IsSpace(last[|last| - 1])
    ensures var body := Join(FormatLines(repo, es), "\n");
      body != [] && !IsSpace(body[0]) && !IsSpace(body[|body| - 1])
  {
    var lines := FormatLines(repo, es);
    forall i | 0 <= i < |es|
      ensures lines[i] != []
    {
      FormatLineEnds(es[i]);
    }
    FormatLineEnds(es[0]);
    FormatLineEnds(es[|es| - 1]);
    JoinKeepsEnds(lines, "\n");
  }

  /** Pieces that start and end with characters `strip()` keeps join into such a text. */
  lemma JoinKeepsEnds(parts: seq<string>, sep: string)
    requires |parts| >= 1 && forall i :: 0 <= i < |parts| ==> parts[i] != []
    requires !IsSpace(parts[0][0])
    requires var last := parts[|parts| - 1]; !IsSpace(last[|last| - 1])
    ensures var j := Join(parts, sep); j != [] && !IsSpace(j[0]) && !IsSpace(j[|j| - 1])
  {
    JoinShape(parts, sep);
  }

  lemma {:induction false} JoinShape(parts: seq<string>, sep: string)
    requires |parts| >= 1 && forall i :: 0 <= i < |parts| ==> parts[i] != []
    ensures var j := Join(parts, sep);
      && j != [] && j[0] == parts[0][0] && j[|j| - 1] == parts[|parts| - 1][|parts[|parts| - 1]| - 1]
    decreases |parts|
  {
    if |parts| > 1 {
      JoinShape(parts[1..], sep);
    }
  }
}
