/**
  The markdown link pattern `\[[^\]]+\]\((https?:\/\/[^\s\)]+)\)`.

  Each repeated character class in the pattern is followed by a character
  that the class cannot match, so backtracking into the class can never
  yield a second match: the pattern matches at a position in at most one
  way. `MatchAt` is that matcher written out by hand, and
  `MatchAtIsLinkAt` proves it agrees with the declarative shape `IsLinkAt`.
 */
module LinkPattern {
  import opened Wrappers
  import opened RegexScan

  /**
    The characters `\s` matches: the ECMAScript WhiteSpace and
    LineTerminator code points.
   */
  predicate IsWhitespace(c: char) {
    || c in {'\t', '\n', '\U{000B}', '\U{000C}', '\r', ' ', '\U{00A0}', '\U{1680}'}
    || c in {'\U{2028}', '\U{2029}', '\U{202F}', '\U{205F}', '\U{3000}', '\U{FEFF}'}
    || ('\U{2000}' <= c <= '\U{200A}')
  }

  /** The class `[^\s\)]`. */
  predicate IsUrlChar(c: char) {
    !IsWhitespace(c) && c != ')'
  }

  const Http: string := "http://"
  const Https: string := "https://"


  /** `lit` occurs in `text` at position `k`. */
  predicate HasAt(text: string, k: nat, lit: string) {
    k + |lit| <= |text| && text[k..k + |lit|] == lit
  }

  /**
    The language of capture group 1, `https?:\/\/[^\s\)]+`: a scheme prefix,
    at least one more character, and no whitespace or `)` anywhere.
   */
  predicate IsHttpUrl(u: string) {
    && ((HasAt(u, 0, Http) && |u| > |Http|) || (HasAt(u, 0, Https) && |u| > |Https|))
    && forall k :: 0 <= k < |u| ==> IsUrlChar(u[k])
  }

  /**
    `text[start + 1..close]` is a label: `text[start]` is `[`, `text[close]`
    is the first `]` after it, and at least one character lies in between
    (the part `\[[^\]]+\]`).
   */
  predicate ClosesLabel(text: string, start: nat, close: nat) {
    && start + 1 < close < |text|
    && text[start] == '['
    && text[close] == ']'
    && forall k :: start < k < close ==> text[k] != ']'
  }

  /**
    `text[s..e]` is an http(s) URL and `text[e]` is the `)` after it
    (the part `(https?:\/\/[^\s\)]+)\)`).
   */
  predicate IsTarget(text: string, s: nat, e: nat) {
    s <= e < |text| && text[e] == ')' && IsHttpUrl(text[s..e])
  }

  /**
    The text from `start` to `end` reads `[label](url)`: the whole pattern
    matches at `start`, ends just before `end` and captures `url`.
   */
  predicate IsLinkAt(text: string, start: nat, url: string, end: nat) {
    && start + |url| + 4 < end
    && var close := end - |url| - 3;
       && ClosesLabel(text, start, close)
       && IsTarget(text, close + 2, end - 1)
       && text[close + 1] == '('
       && text[close + 2..end - 1] == url
  }

  /** The first `]` at or after position `k` (what `[^\]]+\]` runs up to). */
  function FindClose(text: string, k: nat): (j: Option<nat>)
    decreases |text| - k
    ensures j.Some? ==> k <= j.value < |text| && text[j.value] == ']'
    ensures j.Some? ==> forall m :: k <= m < j.value ==> text[m] != ']'
    ensures j.None? ==> forall m :: k <= m < |text| ==> text[m] != ']'
  {
    if k >= |text| then None
    else if text[k] == ']' then Some(k)
    else FindClose(text, k + 1)
  }

  /** The `]` that closes a non-empty label opened at `start`, if any. */
  function LabelClose(text: string, start: nat): (r: Option<nat>)
    ensures r.Some? ==> ClosesLabel(text, start, r.value)
  {
    if start < |text| && text[start] == '[' then
      match FindClose(text, start + 1)
      case Some(close) => if close > start + 1 then Some(close) else None
      case None => None
    else None
  }

  /** `LabelClose` finds every label. */
  lemma LabelCloseComplete(text: string, start: nat, close: nat)
    requires ClosesLabel(text, start, close)
    ensures LabelClose(text, start) == Some(close)
  {
    var j := FindClose(text, start + 1);
    assert text[close] == ']';
    if j.Some? {
      assert text[j.value] == ']';
    }
  }

  /** The end of the longest run of `[^\s\)]` characters starting at `k`. */
  function UrlRunEnd(text: string, k: nat): (e: nat)
    requires k <= |text|
    decreases |text| - k
    ensures k <= e <= |text|
    ensures forall m :: k <= m < e ==> IsUrlChar(text[m])
    ensures e < |text| ==> !IsUrlChar(text[e])
  {
    if k < |text| && IsUrlChar(text[k]) then UrlRunEnd(text, k + 1) else k
  }

  /**
    The length of the scheme `https?:\/\/` at position `k`, or 0 when there
    is none; the optional `s` is tried first, as the greedy `?` does.
   */
  function SchemeLength(text: string, k: nat): (n: nat)
    ensures n == 0 || n == |Http| || n == |Https|
    ensures n != 0 ==> k + n <= |text|
    ensures n == |Https| <==> HasAt(text, k, Https)
    ensures n == |Http| <==> HasAt(text, k, Http)
  {
    if HasAt(text, k, Https) then
      assert !HasAt(text, k, Http) by {
        assert text[k..k + |Https|][4] == text[k + 4] == 's';
      }
      |Https|
    else if HasAt(text, k, Http) then |Http|
    else 0
  }

  /** The `)` that ends a URL starting at `s`, if the text there is one. */
  function TargetEnd(text: string, s: nat): (r: Option<nat>)
    ensures r.Some? ==> IsTarget(text, s, r.value)
  {
    var n := SchemeLength(text, s);
    if n == 0 then None
    else
      var e := UrlRunEnd(text, s + n);
      if e == s + n || e == |text| || text[e] != ')' then None
      else
        TargetFromParts(text, s, n, e);
        Some(e)
  }

  /** A scheme, a non-empty run of URL characters and a `)` make a target. */
  lemma TargetFromParts(text: string, s: nat, n: nat, e: nat)
    requires (n == |Https| && HasAt(text, s, Https)) || (n == |Http| && HasAt(text, s, Http))
    requires s + n < e < |text| && text[e] == ')'
    requires forall m :: s + n <= m < e ==> IsUrlChar(text[m])
    ensures IsTarget(text, s, e)
  {
    var url := text[s..e];
    assert url[..n] == text[s..s + n];
    forall k | 0 <= k < |url| ensures IsUrlChar(url[k]) {
      assert url[k] == text[s + k];
      if k < n {
        assert text[s + k] == text[s..s + n][k];
      }
    }
  }

  /** `TargetEnd` finds every target. */
  lemma TargetEndComplete(text: string, s: nat, e: nat)
    requires IsTarget(text, s, e)
    ensures TargetEnd(text, s) == Some(e)
  {
    var url := text[s..e];
    var n := SchemeLength(text, s);
    if HasAt(url, 0, Https) {
      assert text[s..s + |Https|] == url[..|Https|];
      assert n == |Https|;
    } else {
      assert HasAt(url, 0, Http) && |url| > |Http|;
      assert text[s + 4] == url[4] == ':';
      assert text[s..s + |Http|] == url[..|Http|];
      assert n == |Http|;
    }
    forall m | s <= m < e ensures IsUrlChar(text[m]) {
      assert text[m] == url[m - s];
    }
    assert !IsUrlChar(text[e]);
  }

  /** The regular expression anchored at position `i`. */
  function MatchAt(text: string, i: nat): (r: Option<Match>)
    ensures r.Some? ==> r.value.start == i && IsLinkAt(text, i, r.value.capture, r.value.end)
    ensures r.Some? ==> i < r.value.end <= |text|
  {
    match LabelClose(text, i)
    case None => None
    case Some(close) =>
      if close + 1 < |text| && text[close + 1] == '(' then
        match TargetEnd(text, close + 2)
        case None => None
        case Some(e) => Some(Match(i, e + 1, text[close + 2..e]))
      else None
  }

  /**
    The matcher finds every occurrence of the pattern: wherever the text
    reads `[label](url)` at `start`, `MatchAt` matches there, with that url
    and that end. Together with `MatchAt`'s own postcondition this says the
    pattern matches at a position in exactly one way.
   */
  lemma MatchAtComplete(text: string, start: nat, url: string, end: nat)
    requires IsLinkAt(text, start, url, end)
    ensures MatchAt(text, start) == Some(Match(start, end, url))
  {
    var close := end - |url| - 3;
    LabelCloseComplete(text, start, close);
    TargetEndComplete(text, close + 2, end - 1);
  }

  /** `MatchAt` and the declarative shape agree in both directions. */
  lemma MatchAtIsLinkAt(text: string, start: nat, url: string, end: nat)
    ensures MatchAt(text, start) == Some(Match(start, end, url)) <==> IsLinkAt(text, start, url, end)
  {
    if IsLinkAt(text, start, url, end) {
      MatchAtComplete(text, start, url, end);
    }
  }

  /** The link pattern is an anchored matcher, so the `exec` loop applies to it. */
  lemma MatchAtAnchored()
    ensures Anchored(MatchAt)
  {
    forall text, i: nat | MatchAt(text, i).Some?
      ensures MatchAt(text, i).value.start == i && i < MatchAt(text, i).value.end <= |text|
    {
    }
  }

  /** Every match of a matcher is a `[label](url)` occurrence. */
  ghost predicate FindsLinks(matcher: Matcher) {
    forall text, i: nat :: matcher(text, i).Some? ==>
      IsLinkAt(text, i, matcher(text, i).value.capture, matcher(text, i).value.end)
  }

  /** The link pattern matches links only. */
  lemma MatchAtFindsLinks()
    ensures FindsLinks(MatchAt)
  {
    forall text, i: nat | MatchAt(text, i).Some?
      ensures IsLinkAt(text, i, MatchAt(text, i).value.capture, MatchAt(text, i).value.end)
    {
    }
  }
}
