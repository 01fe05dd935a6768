/**
 * `calculate_timespan` and `seconds_to_string`: how long the work on a day
 * lasted, from the first to the last timestamp of the day, in words.
 */
module Timespan {
  import opened Text
  import opened Calendar
  import opened Buckets
  import opened Entries

  /** The timestamps of `entries`: for each record, its authored and then its committed one. */
  function Times(entries: seq<Entry>): (r: seq<int>)
    ensures |r| == 2 * |entries|
  {
    if entries == [] then [] else [entries[0].authored, entries[0].committed] + Times(entries[1..])
  }

  /** A timestamp is one of the records' exactly when some record was authored or committed at it. */
  lemma {:induction false} TimesMembers(entries: seq<Entry>, t: int)
    ensures t in Times(entries) <==> exists e :: e in entries && (t == e.authored || t == e.committed)
    decreases |entries|
  {
    if entries != [] {
      TimesMembers(entries[1..], t);
      assert forall e :: e in entries <==> e == entries[0] || e in entries[1..];
    }
  }

  /** The timestamps of `entries` that fall on `day`, as the source's list comprehension keeps them. */
  function TimesOn(entries: seq<Entry>, day: int): seq<int>
  {
    Filter(Times(entries), t => DayOf(t) == day)
  }

  /** Some timestamp falls on `day` exactly when some record counts on `day`. */
  lemma TimesOnNonEmpty(entries: seq<Entry>, day: int)
    ensures TimesOn(entries, day) != [] <==> exists e :: e in entries && day in EntryDays(e)
  {
    if TimesOn(entries, day) != [] {
      var t := TimesOn(entries, day)[0];
      assert t in TimesOn(entries, day);
      TimesMembers(entries, t);
    }
    if e :| e in entries && day in EntryDays(e) {
      var t := if DayOf(e.authored) == day then e.authored else e.committed;
      TimesMembers(entries, t);
      assert t in TimesOn(entries, day);
    }
  }

  /** `max()`. */
  function Max(s: seq<int>): (m: int)
    requires s != []
    ensures (exists i :: 0 <= i < |s| && s[i] == m) && forall i :: 0 <= i < |s| ==> s[i] <= m
  {
    if |s| == 1 then s[0]
    else
      var rest := Max(s[1..]);
      assert forall i :: 1 <= i < |s| ==> s[i] == s[1..][i - 1];
      if s[0] >= rest then s[0] else rest
  }

  /** `min()`. */
  function Min(s: seq<int>): (m: int)
    requires s != []
    ensures (exists i :: 0 <= i < |s| && s[i] == m) && forall i :: 0 <= i < |s| ==> m <= s[i]
  {
    if |s| == 1 then s[0]
    else
      var rest := Min(s[1..]);
      assert forall i :: 1 <= i < |s| ==> s[i] == s[1..][i - 1];
      if s[0] <= rest then s[0] else rest
  }

  /**
   * The span of a day's work: the largest difference between two timestamps
   * that fall on `day`.
   */
  function Span(entries: seq<Entry>, day: int): (span: nat)
    requires TimesOn(entries, day) != []
    ensures var times := TimesOn(entries, day);
      && (forall i, j :: 0 <= i < |times| && 0 <= j < |times| ==> times[j] - times[i] <= span)
      && (exists i, j :: 0 <= i < |times| && 0 <= j < |times| && times[j] - times[i] == span)
  {
    var times := TimesOn(entries, day);
    Max(times) - Min(times)
  }

  /**
   * `seconds_to_string`: whole seconds below a minute, else whole minutes
   * below an hour, else whole hours, the count rounded down; the unit is
   * singular only when the span is exactly one unit (so 3661 seconds are
   * "1 hours").
   */
  function SecondsToString(seconds: nat): string
  {
    if seconds < 60 then
      (if seconds == 1 then "1 second" else NatToString(seconds) + " seconds")
    else if seconds < 3600 then
      (if seconds == 60 then "1 minute" else NatToString(seconds / 60) + " minutes")
    else
      (if seconds == 3600 then "1 hour" else NatToString(seconds / 3600) + " hours")
  }

  /** A number followed by a word splits at the space back into the two. */
  lemma SplitNumberWord(n: nat, word: string)
    requires ' ' !in word
    ensures Split(NatToString(n) + " " + word, ' ') == [NatToString(n), word]
  {
    var digits := NatToString(n);
    assert forall i :: 0 <= i < |digits| ==> digits[i] != ' ';
    assert digits + " " + word == digits + [' '] + word;
    SplitAfterPiece(digits, ' ', word);
    SplitNoSeparator(word, ' ');
  }

  /**
   * Reading the words back: the text is a numeral and a unit; the numeral is
   * the number of whole units in the span and the unit is the largest of
   * second, minute and hour that the span reaches, written singular exactly
   * when the span is one unit.
   */
  lemma SecondsToStringReadsBack(seconds: nat)
    ensures var words := Split(SecondsToString(seconds), ' ');
      && |words| == 2 && AllDigits(words[0])
      && var n := ParseDecimal(words[0]);
      && (seconds < 60 ==>
            n == seconds && words[1] == if seconds == 1 then "second" else "seconds")
      && (60 <= seconds < 3600 ==>
            n * 60 <= seconds < (n + 1) * 60 && words[1] == if seconds == 60 then "minute" else "minutes")
      && (3600 <= seconds ==>
            n * 3600 <= seconds < (n + 1) * 3600 && words[1] == if seconds == 3600 then "hour" else "hours")
  {
    var text := SecondsToString(seconds);
    if seconds < 60 {
      if seconds == 1 {
        assert text == NatToString(1) + " " + "second";
        NumberWordReadsBack(1, "second", text);
      } else {
        NumberWordReadsBack(seconds, "seconds", text);
      }
    } else if seconds < 3600 {
      DivBounds(seconds, 60);
      if seconds == 60 {
        assert text == NatToString(1) + " " + "minute";
        NumberWordReadsBack(1, "minute", text);
      } else {
        NumberWordReadsBack(seconds / 60, "minutes", text);
      }
    } else {
      DivBounds(seconds, 3600);
      if seconds == 3600 {
        assert text == NatToString(1) + " " + "hour";
        NumberWordReadsBack(1, "hour", text);
      } else {
        NumberWordReadsBack(seconds / 3600, "hours", text);
      }
    }
  }

  /** Rounding down to whole units leaves less than one unit. */
  lemma DivBounds(seconds: nat, unit: nat)
    requires unit > 0
    ensures (seconds / unit) * unit <= seconds < (seconds / unit + 1) * unit
  {
  }

  lemma NumberWordReadsBack(n: nat, word: string, text: string)
    requires ' ' !in word && text == NatToString(n) + " " + word
    ensures var words := Split(text, ' ');
      |words| == 2 && AllDigits(words[0]) && ParseDecimal(words[0]) == n && words[1] == word
  {
    SplitNumberWord(n, word);
    ParseNatToString(n);
  }

  /** Exactly one unit is written singular. */
  lemma ExampleSingular()
    ensures SecondsToString(1) == "1 second"
    ensures SecondsToString(60) == "1 minute"
    ensures SecondsToString(3600) == "1 hour"
  {
  }

  /** A count of one unit that is not exactly one unit stays plural: 90 seconds are "1 minutes". */
  lemma ExampleRoundedDown()
    ensures SecondsToString(90) == "1 minutes"
    ensures SecondsToString(3661) == "1 hours"
  {
  }

  lemma ExampleSeconds()
    ensures SecondsToString(59) == "59 seconds"
  {
  }

  lemma ExampleHours()
    ensures SecondsToString(7200) == "2 hours"
  {
  }

  /**
   * `calculate_timespan`: the span of the day's timestamps in words, or the
   * empty string when they are all the same second. `None` where the source
   * raises: `max()` of an empty list when no timestamp falls on `day`.
   */
  function CalculateTimespan(entries: seq<Entry>, day: int): Option<string>
  {
    if TimesOn(entries, day) == [] then None
    else
      var seconds := Span(entries, day);
      Some(if seconds > 0 then SecondsToString(seconds) else "")
  }

  /**
   * The span is defined exactly when some record counts on the day; it is
   * empty exactly when all of the day's timestamps are the same second, and
   * otherwise it is the largest difference between two of them, in words.
   */
  lemma TimespanMeaning(entries: seq<Entry>, day: int)
    ensures CalculateTimespan(entries, day).Some? <==> exists e :: e in entries && day in EntryDays(e)
    ensures CalculateTimespan(entries, day).Some? ==>
      var times := TimesOn(entries, day);
      && (CalculateTimespan(entries, day).value == "" <==>
            forall i, j :: 0 <= i < |times| && 0 <= j < |times| ==> times[i] == times[j])
      && (CalculateTimespan(entries, day).value != "" ==>
            CalculateTimespan(entries, day).value == SecondsToString(Span(entries, day)))
  {
    TimesOnNonEmpty(entries, day);
    var times := TimesOn(entries, day);
    if times != [] {
      var span := Span(entries, day);
      if span > 0 {
        var i, j :| 0 <= i < |times| && 0 <= j < |times| && times[j] - times[i] == span;
        assert SecondsToString(span) != "";
      }
    }
  }

  /** A non-empty bucket of the day's records always has a span. */
  lemma TimespanOfBucket(entries: seq<Entry>, day: int)
    requires entries != [] && AllOnDay(entries, day)
    ensures CalculateTimespan(entries, day).Some?
  {
    assert entries[0] in entries;
    TimesOnNonEmpty(entries, day);
  }
}
