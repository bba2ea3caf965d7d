/**
  `checkLink`: one HEAD request per URL, whose result, whatever it is, is
  turned into an outcome record. The request itself is not modelled: what
  the network did is an input.
 */
module Prober {
  import opened Wrappers

  /** What `fetch(url, {method: 'HEAD'})` did. */
  datatype Probe =
    | Response(status: int, statusText: string, ok: bool)  // the promise resolved with a response
    | NetworkFailure(code: Option<string>)                  // the promise rejected; `error.code`, if it has one

  /** The record `{url, status, statusText, ok}` that `checkLink` resolves to. */
  datatype Outcome = Outcome(url: string, status: int, statusText: string, ok: bool)

  const NetworkError: string := "Network Error"

  /**
    A response as the Fetch standard builds it: `ok` is set exactly for the
    statuses 200 to 299.
   */
  predicate IsFetchResponse(probe: Probe) {
    probe.Response? ==> (probe.ok <==> 200 <= probe.status <= 299)
  }

  /** `error.code || 'Network Error'`: the code when it is a non-empty string. */
  function FailureLabel(code: Option<string>): (statusText: string)
    ensures statusText != ""
    ensures code.Some? && code.value != "" ==> statusText == code.value
    ensures code.None? || code.value == "" ==> statusText == NetworkError
  {
    match code
    case Some(c) => if c != "" then c else NetworkError
    case None => NetworkError
  }

  /**
    `checkLink(url)`: a response is copied field by field; any failure
    becomes status 0, not ok, labelled with the error's code.
   */
  function CheckLink(url: string, probe: Probe): (o: Outcome)
    ensures o.url == url
    ensures probe.Response? ==>
      o.status == probe.status && o.statusText == probe.statusText && o.ok == probe.ok
    ensures probe.NetworkFailure? ==>
      o.status == 0 && !o.ok && o.statusText == FailureLabel(probe.code)
  {
    match probe
    case Response(status, statusText, ok) => Outcome(url, status, statusText, ok)
    case NetworkFailure(code) => Outcome(url, 0, FailureLabel(code), false)
  }

  /**
    For responses the Fetch standard can produce, an outcome is ok exactly
    when its status is a success status; status 0 (no response) is never ok,
    and a failed outcome always carries a non-empty status text.
   */
  lemma OutcomeOkIffSuccess(url: string, probe: Probe)
    requires IsFetchResponse(probe)
    ensures CheckLink(url, probe).ok <==> 200 <= CheckLink(url, probe).status <= 299
    ensures CheckLink(url, probe).status == 0 ==> !CheckLink(url, probe).ok
    ensures probe.NetworkFailure? ==> CheckLink(url, probe).statusText != ""
  {
  }

  /**
    `links.map(checkLink)` joined by `Promise.all`: one outcome per link, in
    the links' positions, whatever order the requests completed in.
   */
  function CheckAll(links: seq<string>, net: string -> Probe): (results: seq<Outcome>)
    ensures |results| == |links|
    ensures forall i :: 0 <= i < |links| ==>
      results[i].url == links[i] && results[i] == CheckLink(links[i], net(links[i]))
  {
    if links == [] then []
    else [CheckLink(links[0], net(links[0]))] + CheckAll(links[1..], net)
  }
}
