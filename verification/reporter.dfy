/**
  `displayResults`: one line per outcome, in order, and the OK / BROKEN
  tallies. Colours and the wording of the console output are not modelled;
  a line is its tag and the fields it shows.
 */
module Reporter {
  import opened Prober

  /** `[OK] (status) - url` or `[BROKEN] (status statusText) - url`. */
  datatype Line =
    | OkLine(status: int, url: string)
    | BrokenLine(status: int, statusText: string, url: string)

  /** The counters printed after the lines. */
  datatype Summary = Summary(good: nat, broken: nat, total: nat)

  /**
    `line` reports `o`: tagged OK exactly when `o.ok`, with its status and
    URL, and with its status text only when broken.
   */
  predicate Reports(line: Line, o: Outcome) {
    && (line.OkLine? <==> o.ok)
    && line.status == o.status
    && line.url == o.url
    && (line.BrokenLine? ==> line.statusText == o.statusText)
  }

  /** How many of `results` have `ok == flag`. */
  function CountWhere(results: seq<Outcome>, flag: bool): (n: nat)
    ensures n <= |results|
  {
    if results == [] then 0
    else CountWhere(results[..|results| - 1], flag) + (if results[|results| - 1].ok == flag then 1 else 0)
  }

  /** Every outcome is either OK or BROKEN, so the two counts add up to the total. */
  lemma {:induction false} CountsAddUp(results: seq<Outcome>)
    ensures CountWhere(results, true) + CountWhere(results, false) == |results|
  {
    if results != [] {
      CountsAddUp(results[..|results| - 1]);
    }
  }

  /** A count is zero exactly when no outcome has that flag. */
  lemma {:induction false} CountZero(results: seq<Outcome>, flag: bool)
    ensures CountWhere(results, flag) == 0 <==> forall i :: 0 <= i < |results| ==> results[i].ok != flag
  {
    if results != [] {
      var init := results[..|results| - 1];
      CountZero(init, flag);
      assert forall i :: 0 <= i < |init| ==> init[i] == results[i];
    }
  }

  /** `displayResults(results)`: the `forEach` loop with its two counters. */
  method DisplayResults(results: seq<Outcome>) returns (lines: seq<Line>, summary: Summary)
    ensures |lines| == |results|
    ensures forall i :: 0 <= i < |results| ==> Reports(lines[i], results[i])
    ensures summary.good == CountWhere(results, true)
    ensures summary.broken == CountWhere(results, false)
    ensures summary.total == |results| == summary.good + summary.broken
  {
    var goodLinks, brokenLinks := 0, 0;
    lines := [];
    for i := 0 to |results|
      invariant |lines| == i
      invariant forall k :: 0 <= k < i ==> Reports(lines[k], results[k])
      invariant goodLinks == CountWhere(results[..i], true)
      invariant brokenLinks == CountWhere(results[..i], false)
    {
      assert results[..i + 1][..i] == results[..i];
      var result := results[i];
      if result.ok {
        lines := lines + [OkLine(result.status, result.url)];
        goodLinks := goodLinks + 1;
      } else {
        lines := lines + [BrokenLine(result.status, result.statusText, result.url)];
        brokenLinks := brokenLinks + 1;
      }
    }
    assert results[..|results|] == results;
    CountsAddUp(results);
    summary := Summary(goodLinks, brokenLinks, |results|);
  }
}
