/**
  `extractLinks`: run the link pattern's `exec` loop over the document, then
  deduplicate the captured URLs through a Set, which keeps first-seen order.
 */
module Extractor {
  import opened Distinct
  import opened RegexScan
  import opened LinkPattern

  /** The matches the `exec` loop visits, in order. */
  function LinkMatches(text: string): seq<Match> {
    MatchAtAnchored();
    Scan(MatchAt, text, 0)
  }

  /** Every capture pushed onto `links` by the loop, in order. */
  function Captures(text: string): seq<string> {
    Groups(LinkMatches(text))
  }

  /** What `extractLinks(text)` returns. */
  function Links(text: string): seq<string> {
    Dedup(Captures(text))
  }

  /** `extractLinks`: the `exec` loop, then `[...new Set(links)]`. */
  method ExtractLinks(text: string) returns (links: seq<string>)
    ensures links == Links(text)
    ensures NoDuplicates(links)
    ensures forall k :: 0 <= k < |links| ==> IsHttpUrl(links[k])
  {
    MatchAtAnchored();
    var captured := CollectCaptures(MatchAt, text);
    links := DistinctInOrder(captured);
    LinksAreHttpUrls(text);
  }

  /** Every match the loop visits is a real `[label](url)` occurrence. */
  lemma LinkMatchSound(text: string, k: nat)
    requires k < |LinkMatches(text)|
    ensures var m := LinkMatches(text)[k];
      IsLinkAt(text, m.start, m.capture, m.end)
  {
    MatchAtAnchored();
    MatchAtFindsLinks();
    ScanFindsLinks(MatchAt, text, k);
  }

  /** A matcher that only ever matches links makes a scan of links. */
  lemma ScanFindsLinks(matcher: Matcher, text: string, k: nat)
    requires Anchored(matcher) && FindsLinks(matcher)
    requires k < |Scan(matcher, text, 0)|
    ensures var m := Scan(matcher, text, 0)[k];
      IsLinkAt(text, m.start, m.capture, m.end)
  {
    ScanSound(matcher, text, 0);
  }

  /**
    Every extracted URL occurs in the text as `[label](url)` with a
    non-empty, `]`-free label.
   */
  lemma LinkOccursInText(text: string, u: string)
    requires u in Links(text)
    ensures exists start, end :: IsLinkAt(text, start, u, end)
  {
    var k :| 0 <= k < |Captures(text)| && Captures(text)[k] == u;
    LinkMatchSound(text, k);
    var m := LinkMatches(text)[k];
    assert IsLinkAt(text, m.start, u, m.end);
  }

  /**
    Every extracted URL starts with `http://` or `https://`, has at least one
    character after it, and holds no whitespace and no `)`.
   */
  lemma LinksAreHttpUrls(text: string)
    ensures forall k :: 0 <= k < |Links(text)| ==> IsHttpUrl(Links(text)[k])
  {
    forall k | 0 <= k < |Links(text)| ensures IsHttpUrl(Links(text)[k]) {
      LinkOccursInText(text, Links(text)[k]);
    }
  }

  /**
    Every occurrence of `[label](url)` in the text is extracted, unless it
    lies inside a link the loop matched earlier.
   */
  lemma LinksComplete(text: string, start: nat, url: string, end: nat)
    requires IsLinkAt(text, start, url, end)
    ensures || url in Links(text)
            || exists k :: 0 <= k < |LinkMatches(text)| && LinkMatches(text)[k].start < start < LinkMatches(text)[k].end
  {
    MatchAtAnchored();
    var ms := LinkMatches(text);
    MatchAtComplete(text, start, url, end);
    ScanComplete(MatchAt, text, 0, start);
    ScanSound(MatchAt, text, 0);
    var k :| 0 <= k < |ms| && ms[k].start <= start < ms[k].end;
    if ms[k].start == start {
      assert ms[k].capture == url;
      assert Captures(text)[k] == url;
    }
  }

  /** No link anywhere in the text exactly when nothing is extracted. */
  lemma LinksEmpty(text: string)
    ensures Links(text) == [] <==> forall start, url, end :: !IsLinkAt(text, start, url, end)
  {
    MatchAtAnchored();
    if Links(text) == [] {
      assert Captures(text) == [];
      ScanEmpty(MatchAt, text, 0);
      forall start: nat, url, end: nat ensures !IsLinkAt(text, start, url, end) {
        MatchAtIsLinkAt(text, start, url, end);
      }
    } else {
      LinkOccursInText(text, Links(text)[0]);
    }
  }

  /** The extracted URLs are exactly the captured ones, each once. */
  lemma LinksAreCaptures(text: string, u: string)
    ensures u in Links(text) <==> u in Captures(text)
    ensures NoDuplicates(Links(text))
  {
    if u in Captures(text) {
      var k :| 0 <= k < |Captures(text)| && Captures(text)[k] == u;
      assert Links(text)[IndexOf(Links(text), u)] == u;
    }
  }

  /**
    First-seen order: `u` comes before `v` in the result exactly when the
    first match capturing `u` starts before the first match capturing `v`.
   */
  lemma LinksFirstSeenOrder(text: string, u: string, v: string)
    requires u in Links(text) && v in Links(text)
    ensures u in Captures(text) && v in Captures(text)
    ensures IndexOf(Links(text), u) < IndexOf(Links(text), v)
        <==> LinkMatches(text)[IndexOf(Captures(text), u)].start < LinkMatches(text)[IndexOf(Captures(text), v)].start
  {
    LinksAreCaptures(text, u);
    LinksAreCaptures(text, v);
    DedupFirstSeenOrder(Captures(text), u, v);
    MatchAtAnchored();
    var iu, iv := IndexOf(Captures(text), u), IndexOf(Captures(text), v);
    if iu < iv {
      ScanStartsIncrease(MatchAt, text, 0, iu, iv);
    } else if iv < iu {
      ScanStartsIncrease(MatchAt, text, 0, iv, iu);
    }
  }
}
