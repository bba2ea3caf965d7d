# Markdown link checker — a Dafny model of its core

The tool reads a Markdown document, extracts the `[label](http(s)://…)` links,
probes each unique URL with one HEAD request, and prints one line per link and
an OK / BROKEN summary. This project models the deterministic core of
`main.js` and proves what it promises:

- **Link extraction** (`extractLinks`). The global regular expression
  `\[[^\]]+\]\((https?:\/\/[^\s\)]+)\)` is written out as a hand matcher,
  `LinkPattern.MatchAt`. Backtracking can never yield a second match, so
  the pattern matches at a position in at most one way; the matcher is
  proved equal to a declarative description of the link shape
  (`LinkPattern.IsLinkAt`), in both directions.
- **The `exec` loop.** `RegexScan` models `regex.exec` with `lastIndex` and
  the `while` loop around it. The loop is written for any anchored matcher,
  so its facts (soundness, no overlap, completeness) are proved once.
- **Deduplication.** `Distinct` models `[...new Set(links)]` as
  first-occurrence deduplication, proved to keep first-seen order.
- **Outcome normalisation** (`checkLink`). The network's answer is an input
  (`Prober.Probe`): either a response, or a failure that may carry an error
  code. It is mapped to the `{url, status, statusText, ok}` record.
  `links.map(checkLink)` joined by `Promise.all` becomes the positional map
  `Prober.CheckAll`.
- **Report** (`displayResults`). `Reporter.DisplayResults` is the `forEach`
  loop with its two counters. It yields one tagged line per outcome and the
  summary counts.
- **The run** (`main`, after the file is read). `LinkChecker.CheckDocument`
  chains extraction, the no-links early exit, probing and reporting.

Files: `wrappers.dfy` (Option), `distinct.dfy`, `scanner.dfy`, `pattern.dfy`,
`extractor.dfy`, `prober.dfy`, `reporter.dfy`, `checker.dfy`.

## Model

| member | source | states |
|---|---|---|
| `Distinct.Dedup` | main.js:12 | the deduplicated sequence has no duplicates, its elements are exactly the input's, and it is no longer than the input |
| `Distinct.DedupFirstSeenOrder` | main.js:12 | `u` precedes `v` after deduplication exactly when the first occurrence of `u` in the input precedes the first occurrence of `v` |
| `Distinct.DistinctInOrder` | main.js:12 | inserting the links one by one into a set and keeping each new one yields `Dedup(links)`: no duplicates, same elements |
| `RegexScan.Exec` | main.js:9 | `exec` from `lastIndex` returns the leftmost match at or after it, and no position in between matches; `null` means no position from `lastIndex` on matches |
| `RegexScan.ScanStep` | main.js:9-11 | one loop iteration: the captures are the first match's URL followed by the captures of the scan resumed at that match's end, which lies strictly after `lastIndex` |
| `RegexScan.ScanSound` | main.js:9-11 | every visited match is a real match at its start, at or after the starting index, and each match ends no later than the next one starts (no overlap) |
| `RegexScan.ScanStartsIncrease` | main.js:9-11 | later matches of the loop start strictly later |
| `RegexScan.ScanComplete` | main.js:9-11 | every position where the pattern matches is either the start of a visited match or inside one |
| `RegexScan.ScanEmpty` | main.js:9-11 | the loop captures nothing exactly when the pattern matches at no position |
| `RegexScan.CollectCaptures` | main.js:7-11 | the `while (exec)` loop pushes exactly the captures of the scan from index 0, in order |
| `LinkPattern.FindClose` | main.js:6 | `[^\]]+\]` runs to the first `]` at or after the given index; `None` when there is no `]` |
| `LinkPattern.LabelClose` | main.js:6 | a found label opens with `[`, is non-empty and `]`-free, and is closed by `]` |
| `LinkPattern.LabelCloseComplete` | main.js:6 | every non-empty `]`-free label after `[` is found, with its closing `]` |
| `LinkPattern.UrlRunEnd` | main.js:6 | `[^\s\)]+` consumes the longest run of characters that are neither whitespace nor `)` |
| `LinkPattern.SchemeLength` | main.js:6 | `https?:\/\/` is recognised as `https://` (8) or `http://` (7), each exactly when present, else 0 |
| `LinkPattern.TargetEnd` | main.js:6 | a found destination is an http(s) URL followed by `)` |
| `LinkPattern.TargetEndComplete` | main.js:6 | every http(s) URL followed by `)` is found, ending at that `)` |
| `LinkPattern.MatchAt` | main.js:6 | a match at `i` starts at `i`, is non-empty, lies inside the text, and reads `[label](url)` |
| `LinkPattern.MatchAtComplete` | main.js:6 | wherever the text reads `[label](url)`, the pattern matches there with that URL and end |
| `LinkPattern.MatchAtIsLinkAt` | main.js:6 | matching at a position and the declarative link shape agree in both directions, so the match is unique |
| `LinkPattern.MatchAtAnchored` | main.js:6 | the link pattern's matches start where tried, are non-empty and stay inside the text |
| `LinkPattern.MatchAtFindsLinks` | main.js:6 | every match of the link pattern is a `[label](url)` occurrence |
| `Extractor.ExtractLinks` | main.js:5-13 | `extractLinks` returns the first-seen deduplication of the loop's captures: no duplicates, and every URL an http(s) URL |
| `Extractor.LinkMatchSound` | main.js:6-11 | each match the loop visits is a `[label](url)` occurrence in the text |
| `Extractor.LinkOccursInText` | main.js:6-12 | every extracted URL occurs in the text as `[label](url)` with a non-empty, `]`-free label |
| `Extractor.LinksAreHttpUrls` | main.js:6 | every extracted URL starts with `http://` or `https://`, has at least one character after it, and has no whitespace or `)` |
| `Extractor.LinksComplete` | main.js:6-12 | every `[label](url)` occurrence is extracted, unless it lies strictly inside an earlier visited match |
| `Extractor.LinksEmpty` | main.js:6-12 | nothing is extracted exactly when the text has no `[label](url)` occurrence |
| `Extractor.LinksAreCaptures` | main.js:10-12 | the extracted URLs are exactly the captured ones, without duplicates |
| `Extractor.LinksFirstSeenOrder` | main.js:9-12 | `u` precedes `v` in the result exactly when the first match capturing `u` starts before the first match capturing `v` |
| `Prober.FailureLabel` | main.js:31 | the code of the error when it is a non-empty string, otherwise "Network Error"; never empty |
| `Prober.CheckLink` | main.js:15-35 | the URL is kept; a response's status, status text and ok flag are copied; a failure gives status 0, not ok, and the failure label |
| `Prober.OutcomeOkIffSuccess` | main.js:21-33 | for Fetch-standard responses, an outcome is ok exactly when its status is 200–299; status 0 is never ok; a failure's text is non-empty |
| `Prober.CheckAll` | main.js:81-82 | one outcome per link, at the link's position, with `results[i].url == links[i]` |
| `Reporter.CountsAddUp` | main.js:39-55 | the OK and BROKEN counts add up to the number of results |
| `Reporter.CountZero` | main.js:42-50 | a count is zero exactly when no result has that ok flag |
| `Reporter.DisplayResults` | main.js:37-56 | one line per result, in order, tagged OK exactly when ok, showing the status text only when broken; good counts ok results, broken counts the rest, good + broken == total == number of results |
| `LinkChecker.CheckDocument` | main.js:73-84 | the run stops with the no-links message exactly when the text has no link; otherwise it probes exactly the extracted links and reports them in order, one line each, with good counting the ok outcomes, broken counting the rest, and the two adding up to the number of links |

## Left out

- Reading the file, `path.resolve`, `process.argv`, `process.exit`, and the usage and file-not-found messages (main.js:58-72, 85-92). These are process and file-system plumbing.
- The HEAD request itself (main.js:17-20): its headers, redirects and timeouts. What the network did is the input `Prober.Probe`. In `CheckDocument` it comes from the function `net`, which is enough because every URL is probed once.
- The asynchrony of `Promise.all` (main.js:81-82). Its observable contract is positional pairing, which `CheckAll` states.
- Colours (`chalk`) and the exact Portuguese console text (main.js:38, 44, 47, 52-55, 75, 79). A line is modelled as its tag and the fields it shows, and the summary as its three numbers.
- Character positions are Unicode scalar values, while JavaScript indexes UTF-16 code units. No character outside the Basic Multilingual Plane is whitespace, `]` or `)`, so matches and captured URLs are the same. Only the numeric indices differ.
- `\s` is the fixed ECMAScript WhiteSpace and LineTerminator set (`LinkPattern.IsWhitespace`).
- `Prober.OutcomeOkIffSuccess`: `checkLink` copies `response.ok` verbatim and does not check it. The link between `ok` and a 2xx status is the Fetch standard's promise, so it is taken as a hypothesis (`IsFetchResponse`).
- `Prober.FailureLabel`: `error.code` is modelled as absent or a string. The model does not cover a non-string code, which JavaScript would test for truthiness.
