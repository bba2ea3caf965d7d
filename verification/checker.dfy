/**
  The checking run once the document's text is in hand: extract the links,
  stop with a message when there are none, otherwise probe every link and
  report the outcomes.
 */
module LinkChecker {
  import opened LinkPattern
  import opened Extractor
  import opened Prober
  import opened Reporter

  /** What the run prints: the no-links message, or the per-link lines and the summary. */
  datatype Report =
    | NoLinks
    | Checked(links: seq<string>, results: seq<Outcome>, lines: seq<Line>, summary: Summary)

  /**
    `net` stands for the network: it says what the HEAD request for each URL
    did. Every link is probed exactly once, since the links are deduplicated.
   */
  method CheckDocument(text: string, net: string -> Probe) returns (report: Report)
    ensures report.NoLinks? <==> forall start, url, end :: !IsLinkAt(text, start, url, end)
    ensures report.Checked? ==>
      && report.links == Links(text) != []
      && report.results == CheckAll(report.links, net)
      && |report.lines| == |report.results| == |report.links| == report.summary.total
      && (forall i :: 0 <= i < |report.links| ==>
            report.results[i].url == report.links[i] && Reports(report.lines[i], report.results[i]))
      && report.summary.good == CountWhere(report.results, true)
      && report.summary.broken == CountWhere(report.results, false)
      && report.summary.good + report.summary.broken == report.summary.total
  {
    LinksEmpty(text);
    var links := ExtractLinks(text);
    if |links| == 0 {
      return NoLinks;
    }
    var results := CheckAll(links, net);
    var lines, summary := DisplayResults(results);
    report := Checked(links, results, lines, summary);
  }
}
