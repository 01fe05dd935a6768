/**
 * `TICKET_PATTERN.search(summary)` for the pattern `[A-Z0-9]+-[0-9]+`.
 *
 * A search returns the leftmost position where the pattern matches, and there
 * the greedy match. Because `-` is not in `[A-Z0-9]`, the greedy first part
 * never gives characters back, so the greedy match is the longest one: the
 * search finds the leftmost, then longest, ticket in the summary.
 */
module Tickets {
  import opened Text

  predicate IsTicketChar(c: char) {
    'A' <= c <= 'Z' || IsDigit(c)
  }

  /** `k` matches `[A-Z0-9]+-[0-9]+` as a whole. */
  predicate IsTicket(k: string) {
    exists j :: 0 < j < |k| - 1 && k[j] == '-'
      && (forall a :: 0 <= a < j ==> IsTicketChar(k[a]))
      && (forall b :: j < b < |k| ==> IsDigit(k[b]))
  }

  /** The end of the run of characters satisfying `p` that starts at `i`. */
  function RunEnd(s: string, i: nat, p: char -> bool): (j: nat)
    requires i <= |s|
    ensures i <= j <= |s|
    ensures forall a :: i <= a < j ==> p(s[a])
    ensures j == |s| || !p(s[j])
    decreases |s| - i
  {
    if i < |s| && p(s[i]) then RunEnd(s, i + 1, p) else i
  }

  /** Where the greedy match of the pattern starting at `i` ends, if the pattern matches there. */
  function MatchAt(s: string, i: nat): Option<nat>
    requires i <= |s|
  {
    var j := RunEnd(s, i, IsTicketChar);
    if i < j && j + 1 < |s| && s[j] == '-' && IsDigit(s[j + 1]) then Some(RunEnd(s, j + 1, IsDigit))
    else None
  }

  /** A match found at `i` is a ticket. */
  lemma MatchAtSound(s: string, i: nat)
    requires i <= |s| && MatchAt(s, i).Some?
    ensures i < MatchAt(s, i).value <= |s| && IsTicket(s[i..MatchAt(s, i).value])
  {
    var j := RunEnd(s, i, IsTicketChar);
    var e := MatchAt(s, i).value;
    var k := s[i..e];
    assert k[j - i] == '-';
    assert forall a :: 0 <= a < j - i ==> IsTicketChar(k[a]) by {
      forall a | 0 <= a < j - i ensures IsTicketChar(k[a]) {
        assert k[a] == s[i + a];
      }
    }
    assert forall b :: j - i < b < |k| ==> IsDigit(k[b]) by {
      forall b | j - i < b < |k| ensures IsDigit(k[b]) {
        assert k[b] == s[i + b];
      }
    }
  }

  /** Every ticket starting at `i` is found there, and the match found is at least as long. */
  lemma MatchAtLongest(s: string, i: nat, e: nat)
    requires i <= e <= |s| && IsTicket(s[i..e])
    ensures MatchAt(s, i).Some? && e <= MatchAt(s, i).value
  {
    var k := s[i..e];
    var h :| 0 < h < |k| - 1 && k[h] == '-'
      && (forall a :: 0 <= a < h ==> IsTicketChar(k[a]))
      && (forall b :: h < b < |k| ==> IsDigit(k[b]));
    forall a | i <= a < i + h
      ensures IsTicketChar(s[a])
    {
      assert s[a] == k[a - i];
    }
    forall b | i + h < b < e
      ensures IsDigit(s[b])
    {
      assert s[b] == k[b - i];
    }
    assert s[i + h] == k[h] == '-';
    var j := RunEnd(s, i, IsTicketChar);
    assert j == i + h;
  }

  /** Where the pattern does not match, no ticket starts. */
  lemma NoTicketAt(s: string, i: nat)
    requires i <= |s| && MatchAt(s, i).None?
    ensures forall b :: i <= b <= |s| ==> !IsTicket(s[i..b])
  {
    forall b | i <= b <= |s|
      ensures !IsTicket(s[i..b])
    {
      if IsTicket(s[i..b]) {
        MatchAtLongest(s, i, b);
      }
    }
  }

  /** Where the pattern matches, no longer ticket starts at the same place. */
  lemma NoLongerTicketAt(s: string, i: nat)
    requires i <= |s| && MatchAt(s, i).Some?
    ensures forall b :: MatchAt(s, i).value < b <= |s| ==> !IsTicket(s[i..b])
  {
    forall b | MatchAt(s, i).value < b <= |s|
      ensures !IsTicket(s[i..b])
    {
      if IsTicket(s[i..b]) {
        MatchAtLongest(s, i, b);
      }
    }
  }

  /** The span of the first match at or after position `i`. */
  function SearchFrom(s: string, i: nat): Option<(nat, nat)>
    requires i <= |s|
    decreases |s| - i
  {
    if i == |s| then None
    else
      match MatchAt(s, i)
      case Some(e) => Some((i, e))
      case None => SearchFrom(s, i + 1)
  }

  lemma {:induction false} SearchFromSpec(s: string, i: nat)
    requires i <= |s|
    ensures SearchFrom(s, i).None? ==>
      forall a, b :: i <= a <= b <= |s| ==> !IsTicket(s[a..b])
    ensures SearchFrom(s, i).Some? ==>
      var (start, end) := SearchFrom(s, i).value;
      && i <= start < end <= |s| && IsTicket(s[start..end])
      && (forall a, b :: i <= a < start && a <= b <= |s| ==> !IsTicket(s[a..b]))
      && (forall b :: end < b <= |s| ==> !IsTicket(s[start..b]))
    decreases |s| - i
  {
    if i == |s| {
      assert forall b :: i <= b <= |s| ==> s[i..b] == [];
    } else if MatchAt(s, i).Some? {
      MatchAtSound(s, i);
      NoLongerTicketAt(s, i);
    } else {
      SearchFromSpec(s, i + 1);
      NoTicketAt(s, i);
      var hi := if SearchFrom(s, i + 1).Some? then SearchFrom(s, i + 1).value.0 else |s| + 1;
      NoTicketBefore(s, i, hi);
    }
  }

  /** No ticket starts at `i` nor after it before `hi`: none starts before `hi`. */
  lemma NoTicketBefore(s: string, i: nat, hi: nat)
    requires i <= |s|
    requires forall b :: i <= b <= |s| ==> !IsTicket(s[i..b])
    requires forall a, b :: i + 1 <= a < hi && a <= b <= |s| ==> !IsTicket(s[a..b])
    ensures forall a, b :: i <= a < hi && a <= b <= |s| ==> !IsTicket(s[a..b])
  {
  }

  /** The span of `TICKET_PATTERN.search(summary)`, if it matches. */
  function TicketSpan(summary: string): Option<(nat, nat)>
  {
    SearchFrom(summary, 0)
  }

  /** `match.group(0)` of the search, or `None` when nothing matches. */
  function FindTicket(summary: string): (r: Option<string>)
  {
    match TicketSpan(summary)
    case Some((start, end)) => if start <= end <= |summary| then Some(summary[start..end]) else None
    case None => None
  }

  /**
   * The search finds the leftmost ticket in the summary, and of the tickets
   * starting there the longest; it finds nothing exactly when no part of
   * the summary is a ticket.
   */
  lemma FindTicketSpec(summary: string)
    ensures FindTicket(summary).None? <==>
      forall a, b :: 0 <= a <= b <= |summary| ==> !IsTicket(summary[a..b])
    ensures TicketSpan(summary).Some? ==>
      var (start, end) := TicketSpan(summary).value;
      && start < end <= |summary| && FindTicket(summary) == Some(summary[start..end])
      && IsTicket(summary[start..end])
      && (forall a, b :: 0 <= a < start && a <= b <= |summary| ==> !IsTicket(summary[a..b]))
      && (forall b :: end < b <= |summary| ==> !IsTicket(summary[start..b]))
  {
    SearchFromSpec(summary, 0);
  }

  /** A found ticket is a ticket. */
  lemma FoundIsTicket(summary: string)
    requires FindTicket(summary).Some?
    ensures IsTicket(FindTicket(summary).value)
  {
    FindTicketSpec(summary);
  }

  /** A run that stops inside `s` stops at the same place when text that cannot continue it follows `s`. */
  lemma {:induction false} RunEndPadded(s: string, w: string, i: nat, p: char -> bool)
    requires i <= |s| && (w == [] || !p(w[0]))
    ensures RunEnd(s + w, i, p) == RunEnd(s, i, p)
    decreases |s| - i
  {
    if i < |s| {
      assert (s + w)[i] == s[i];
      if p(s[i]) {
        RunEndPadded(s, w, i + 1, p);
      }
    } else if w != [] {
      assert (s + w)[i] == w[0];
    }
  }

  /** Whitespace after `s` does not change whether, or how far, the pattern matches at a position of `s`. */
  lemma MatchAtPadded(s: string, w: string, i: nat)
    requires i <= |s| && forall k :: 0 <= k < |w| ==> IsSpace(w[k])
    ensures MatchAt(s + w, i) == MatchAt(s, i)
  {
    var t := s + w;
    RunEndPadded(s, w, i, IsTicketChar);
    var j := RunEnd(s, i, IsTicketChar);
    if j + 1 < |s| {
      assert t[j] == s[j] && t[j + 1] == s[j + 1];
      RunEndPadded(s, w, j + 1, IsDigit);
    } else if j + 1 == |s| && w != [] {
      assert t[j + 1] == w[0];
    } else if j == |s| && w != [] {
      assert t[j] == w[0];
    }
  }

  /** No ticket starts in the whitespace after `s`. */
  lemma {:induction false} SearchPaddingNone(s: string, w: string, i: nat)
    requires |s| <= i <= |s| + |w| && forall k :: 0 <= k < |w| ==> IsSpace(w[k])
    ensures SearchFrom(s + w, i) == None
    decreases |s| + |w| - i
  {
    var t := s + w;
    if i < |t| {
      assert t[i] == w[i - |s|];
      assert RunEnd(t, i, IsTicketChar) == i;
      SearchPaddingNone(s, w, i + 1);
    }
  }

  /** Whitespace after `s` does not change what the search from a position of `s` finds. */
  lemma {:induction false} SearchFromPadded(s: string, w: string, i: nat)
    requires i <= |s| && forall k :: 0 <= k < |w| ==> IsSpace(w[k])
    ensures SearchFrom(s + w, i) == SearchFrom(s, i)
    decreases |s| - i
  {
    if i == |s| {
      SearchPaddingNone(s, w, i);
    } else {
      MatchAtPadded(s, w, i);
      if MatchAt(s, i).None? {
        SearchFromPadded(s, w, i + 1);
      }
    }
  }

  /**
   * Trailing whitespace, such as the padding git adds to summaries or the
   * whitespace `strip()` removes from the last one, does not change the
   * ticket a summary mentions.
   */
  lemma FindTicketIgnoresTrailingSpace(summary: string)
    ensures FindTicket(StripRight(summary)) == FindTicket(summary)
  {
    var s := StripRight(summary);
    var w := summary[|s|..];
    TrailingSpace(summary);
    SearchFromPadded(s, w, 0);
    FindTicketSpec(s);
    if TicketSpan(s).Some? {
      var (a, b) := TicketSpan(s).value;
      assert summary[a..b] == s[a..b];
    }
  }

  const ExampleSummary := "Fix bug ABC-123 in login"

  lemma ExampleMatch()
    ensures SearchFrom(ExampleSummary, 8) == Some((8, 15))
  {
    var s := ExampleSummary;
    assert RunEnd(s, 12, IsDigit) == 15;
    assert RunEnd(s, 8, IsTicketChar) == 11;
  }

  lemma ExampleNoEarlierMatch()
    ensures SearchFrom(ExampleSummary, 0) == SearchFrom(ExampleSummary, 4)
  {
    var s := ExampleSummary;
    assert RunEnd(s, 3, IsTicketChar) == 3;
    assert RunEnd(s, 2, IsTicketChar) == 2;
    assert RunEnd(s, 1, IsTicketChar) == 1;
    assert RunEnd(s, 0, IsTicketChar) == 1;
  }

  lemma ExampleNoMiddleMatch()
    ensures SearchFrom(ExampleSummary, 4) == SearchFrom(ExampleSummary, 8)
  {
    var s := ExampleSummary;
    assert RunEnd(s, 7, IsTicketChar) == 7;
    assert RunEnd(s, 6, IsTicketChar) == 6;
    assert RunEnd(s, 5, IsTicketChar) == 5;
    assert RunEnd(s, 4, IsTicketChar) == 4;
  }

  /** The ticket of "Fix bug ABC-123 in login" is ABC-123. */
  lemma ExampleTicket(s: string)
    requires s == ExampleSummary
    ensures FindTicket(s) == Some("ABC-123")
  {
    ExampleMatch();
    ExampleNoEarlierMatch();
    ExampleNoMiddleMatch();
    assert TicketSpan(s) == Some((8, 15));
    ExampleSlice(s);
  }

  lemma ExampleSlice(s: string)
    requires s == ExampleSummary
    ensures s[8..15] == "ABC-123"
  {
  }
}
