/**
  The global-flag `exec` loop of a JavaScript regular expression:

      while ((match = regex.exec(text)) !== null) { ... }

  Each `exec` searches for the leftmost match at or after `lastIndex` and
  then moves `lastIndex` to the end of that match. This module describes
  that loop for any anchored matcher whose matches are non-empty, so the
  facts about it do not depend on the particular pattern.
 */
module RegexScan {
  import opened Wrappers

  /** One successful `exec`: the match index, the `lastIndex` after it, and capture group 1. */
  datatype Match = Match(start: nat, end: nat, capture: string)

  /** A regular expression tried at one start position only. */
  type Matcher = (string, nat) -> Option<Match>

  /** Every match starts where it was tried, is non-empty and lies inside the text. */
  ghost predicate Anchored(matcher: Matcher) {
    forall text, i: nat :: matcher(text, i).Some? ==>
      matcher(text, i).value.start == i && i < matcher(text, i).value.end <= |text|
  }

  /**
    `regex.exec(text)` with `lastIndex == from`: the leftmost match starting
    at or after `from`, or `None` (the `null` result) when there is none.
   */
  function Exec(matcher: Matcher, text: string, from: nat): (r: Option<Match>)
    requires Anchored(matcher)
    decreases |text| - from
    ensures r.Some? ==> from <= r.value.start < |text| && matcher(text, r.value.start) == r
    ensures r.Some? ==> forall p :: from <= p < r.value.start ==> matcher(text, p).None?
    ensures r.None? ==> forall p :: from <= p < |text| ==> matcher(text, p).None?
  {
    if from >= |text| then None
    else
      match matcher(text, from)
      case Some(m) => Some(m)
      case None => Exec(matcher, text, from + 1)
  }

  /**
    The matches the `exec` loop visits when `lastIndex` starts at `from`:
    after each match the search resumes at its end, so matches never
    overlap.
   */
  function Scan(matcher: Matcher, text: string, from: nat): (ms: seq<Match>)
    requires Anchored(matcher)
    decreases |text| - from
  {
    match Exec(matcher, text, from)
    case None => []
    case Some(m) => [m] + Scan(matcher, text, m.end)
  }

  /** The capture groups of a list of matches. */
  function Groups(ms: seq<Match>): (us: seq<string>)
    ensures |us| == |ms|
    ensures forall k :: 0 <= k < |ms| ==> us[k] == ms[k].capture
  {
    seq(|ms|, k requires 0 <= k < |ms| => ms[k].capture)
  }

  /** One step of the loop: the first match, then the scan from its end. */
  lemma ScanStep(matcher: Matcher, text: string, from: nat)
    requires Anchored(matcher) && Exec(matcher, text, from).Some?
    ensures var m := Exec(matcher, text, from).value;
      && from <= m.start < m.end <= |text|
      && Scan(matcher, text, from) == [m] + Scan(matcher, text, m.end)
      && Groups(Scan(matcher, text, from)) == [m.capture] + Groups(Scan(matcher, text, m.end))
  {
    var m := Exec(matcher, text, from).value;
    assert Groups(Scan(matcher, text, from)) == [m.capture] + Groups(Scan(matcher, text, m.end));
  }

  /**
    The scan visits real matches only, each at or after `from`, and each one
    starts no earlier than the end of the one before it.
   */
  lemma {:induction false} ScanSound(matcher: Matcher, text: string, from: nat)
    requires Anchored(matcher)
    ensures var ms := Scan(matcher, text, from);
      forall k :: 0 <= k < |ms| ==> from <= ms[k].start < ms[k].end && matcher(text, ms[k].start) == Some(ms[k])
    ensures var ms := Scan(matcher, text, from);
      forall k, l :: 0 <= k < l < |ms| ==> ms[k].end <= ms[l].start
    decreases |text| - from
  {
    match Exec(matcher, text, from)
    case None =>
    case Some(m) =>
      ScanStep(matcher, text, from);
      ScanSound(matcher, text, m.end);
  }

  /** Later matches of the scan start later. */
  lemma ScanStartsIncrease(matcher: Matcher, text: string, from: nat, k: nat, l: nat)
    requires Anchored(matcher)
    requires k < l < |Scan(matcher, text, from)|
    ensures Scan(matcher, text, from)[k].start < Scan(matcher, text, from)[l].start
  {
    ScanSound(matcher, text, from);
  }

  /**
    The scan misses no match: every position at or after `from` where the
    pattern matches is either where a scanned match starts or lies inside
    one (a match that would overlap an earlier one is skipped).
   */
  lemma {:induction false} ScanComplete(matcher: Matcher, text: string, from: nat, p: nat)
    requires Anchored(matcher)
    requires from <= p && matcher(text, p).Some?
    ensures var ms := Scan(matcher, text, from);
      exists k :: 0 <= k < |ms| && ms[k].start <= p < ms[k].end
    decreases |text| - from
  {
    assert p < |text|;
    match Exec(matcher, text, from)
    case None =>
    case Some(m) =>
      ScanStep(matcher, text, from);
      var ms := Scan(matcher, text, from);
      if p < m.end {
        assert ms[0].start <= p < ms[0].end;
      } else {
        ScanComplete(matcher, text, m.end, p);
        var rest := Scan(matcher, text, m.end);
        var k :| 0 <= k < |rest| && rest[k].start <= p < rest[k].end;
        assert ms[k + 1] == rest[k];
      }
  }

  /** The scan finds nothing exactly when the pattern matches nowhere after `from`. */
  lemma ScanEmpty(matcher: Matcher, text: string, from: nat)
    requires Anchored(matcher)
    ensures Scan(matcher, text, from) == [] <==> forall p :: from <= p ==> matcher(text, p).None?
  {
    if Scan(matcher, text, from) != [] {
      ScanStep(matcher, text, from);
    }
  }

  /**
    The `exec` loop itself: `links.push(match[1])` for every match until
    `exec` returns `null`.
   */
  method CollectCaptures(matcher: Matcher, text: string) returns (captured: seq<string>)
    requires Anchored(matcher)
    ensures captured == Groups(Scan(matcher, text, 0))
  {
    captured := [];
    var lastIndex: nat := 0;
    var m := Exec(matcher, text, lastIndex);
    while m.Some?
      invariant lastIndex <= |text|
      invariant m == Exec(matcher, text, lastIndex)
      invariant captured + Groups(Scan(matcher, text, lastIndex)) == Groups(Scan(matcher, text, 0))
      decreases |text| - lastIndex
    {
      ScanStep(matcher, text, lastIndex);
      captured := captured + [m.value.capture];
      lastIndex := m.value.end;
      m := Exec(matcher, text, lastIndex);
    }
  }
}
