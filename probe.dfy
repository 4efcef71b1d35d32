/** `checkDomain` (server.js): validation, HTTPS-then-HTTP probing and the DNS diagnosis on failure. */
module Probe {
  import opened Base
  import opened Network
  import opened Hostname
  import opened Dns

  const ProbeTimeoutMs: nat := 8000
  const InvalidHostnameError := "invalid hostname"
  const UnreachableError := "unreachable or timed out"

  /**
   * One entry of the `/check` response. None stands for both `null` and an absent key: an invalid
   * or unreachable result has `url: null, status: null` and no `finalUrl`; a reachable one has no
   * `error`; only an unreachable one has `dnsInfo`.
   */
  datatype CheckResult = CheckResult(
    domain: string,
    url: Option<string>,
    reachable: bool,
    status: Option<int>,
    finalUrl: Option<string>,
    error: Option<string>,
    dnsInfo: Option<DnsInfo>)

  /** `tryUrls`, in priority order. */
  function Candidates(domain: string): (urls: seq<string>)
    ensures |urls| == 2
    ensures |urls[0]| >= 8 && |urls[1]| >= 7
    ensures urls[0][..8] == "https://" && urls[0][8..] == domain
    ensures urls[1][..7] == "http://" && urls[1][7..] == domain
  {
    ["https://" + domain, "http://" + domain]
  }

  /** The candidate that answered, with the status and final URL of its answer. */
  datatype Answer = Answer(url: string, status: int, finalUrl: string)

  /**
   * `a` is the answer of candidate `i`: its fetch completed with the status and final URL that `a`
   * reports, and the fetch of every earlier candidate failed.
   */
  predicate AnsweredAt(urls: seq<string>, net: Oracles, i: int, a: Answer)
  {
    && 0 <= i < |urls| && urls[i] == a.url
    && net.fetch(urls[i], ProbeTimeoutMs) == FetchOk(a.status, a.finalUrl)
    && forall j :: 0 <= j < i ==> net.fetch(urls[j], ProbeTimeoutMs).FetchFailed?
  }

  /** The first candidate whose fetch completes, whatever its HTTP status. */
  function FirstSuccess(urls: seq<string>, net: Oracles): (r: Option<Answer>)
    ensures r.Some? ==> exists i :: AnsweredAt(urls, net, i, r.value)
    ensures r.None? ==> forall i :: 0 <= i < |urls| ==> net.fetch(urls[i], ProbeTimeoutMs).FetchFailed?
  {
    if urls == [] then None
    else
      match net.fetch(urls[0], ProbeTimeoutMs)
      case FetchOk(status, finalUrl) =>
        var a := Answer(urls[0], status, finalUrl);
        assert AnsweredAt(urls, net, 0, a);
        Some(a)
      case FetchFailed(_) =>
        var r := FirstSuccess(urls[1..], net);
        assert r.Some? ==> exists i :: AnsweredAt(urls, net, i, r.value) by {
          if r.Some? {
            var i :| AnsweredAt(urls[1..], net, i, r.value);
            assert AnsweredAt(urls, net, i + 1, r.value);
          }
        }
        r
  }

  /** The fetches issued: one per candidate, up to and including the first that completes. */
  function ProbeTrace(urls: seq<string>, net: Oracles): seq<Effect>
  {
    if urls == [] then []
    else
      [Fetch(urls[0], ProbeTimeoutMs)]
      + (if net.fetch(urls[0], ProbeTimeoutMs).FetchOk? then [] else ProbeTrace(urls[1..], net))
  }

  /** The result `checkDomain(domain)` resolves to. */
  function Decide(domain: string, net: Oracles): (r: CheckResult)
    ensures r.domain == domain
    ensures r.reachable <==> r.status.Some?
    ensures r.reachable ==> r.url.Some? && r.finalUrl.Some? && r.error == None && r.dnsInfo == None
    ensures !r.reachable ==> r.url == None && r.finalUrl == None && r.error.Some?
    ensures r.dnsInfo.Some? <==> r.error == Some(UnreachableError)
  {
    if !ValidHostname(domain) then
      CheckResult(domain, None, false, None, None, Some(InvalidHostnameError), None)
    else
      match FirstSuccess(Candidates(domain), net)
      case Some(answer) =>
        CheckResult(domain, Some(answer.url), true, Some(answer.status), Some(answer.finalUrl), None, None)
      case None =>
        CheckResult(domain, None, false, None, None, Some(UnreachableError), Some(Diagnose(domain, net)))
  }

  /** The requests `checkDomain(domain)` sends. */
  function DecideTrace(domain: string, net: Oracles): seq<Effect>
  {
    if !ValidHostname(domain) then []
    else
      var cands := Candidates(domain);
      ProbeTrace(cands, net) + (if FirstSuccess(cands, net).None? then DnsTrace(domain) else [])
  }

  /** `checkDomain`: the `for…of` over `tryUrls` returns at the first successful fetch. */
  method CheckDomain(domain: string, net: Oracles) returns (r: CheckResult, trace: seq<Effect>)
    ensures r == Decide(domain, net)
    ensures trace == DecideTrace(domain, net)
  {
    var valid := IsValidHostname(domain);
    if !valid {
      return CheckResult(domain, None, false, None, None, Some(InvalidHostnameError), None), [];
    }
    var tryUrls := Candidates(domain);
    trace := [];
    for i := 0 to |tryUrls|
      invariant FirstSuccess(tryUrls[i..], net) == FirstSuccess(tryUrls, net)
      invariant trace + ProbeTrace(tryUrls[i..], net) == ProbeTrace(tryUrls, net)
    {
      var url := tryUrls[i];
      var result := net.fetch(url, ProbeTimeoutMs);
      trace := trace + [Fetch(url, ProbeTimeoutMs)];
      if result.FetchOk? {
        return CheckResult(domain, Some(url), true, Some(result.status), Some(result.finalUrl), None, None), trace;
      }
      assert tryUrls[i..][1..] == tryUrls[i + 1..];
    }
    var dnsInfo, dnsTrace := CheckDns(domain, net);
    r := CheckResult(domain, None, false, None, None, Some(UnreachableError), Some(dnsInfo));
    trace := trace + dnsTrace;
  }

  /** An invalid hostname is answered at once, with no fetch and no DNS query. */
  lemma InvalidNotProbed(domain: string, net: Oracles)
    requires !ValidHostname(domain)
    ensures Decide(domain, net) == CheckResult(domain, None, false, None, None, Some(InvalidHostnameError), None)
    ensures DecideTrace(domain, net) == []
  {
  }

  /** HTTPS is tried first; when it answers, HTTP is never tried and its answer is reported as is. */
  lemma HttpsPreferred(domain: string, net: Oracles)
    requires ValidHostname(domain)
    requires net.fetch("https://" + domain, ProbeTimeoutMs).FetchOk?
    ensures var o := net.fetch("https://" + domain, ProbeTimeoutMs);
      Decide(domain, net) == CheckResult(domain, Some("https://" + domain), true, Some(o.status),
                                         Some(o.finalUrl), None, None)
    ensures DecideTrace(domain, net) == [Fetch("https://" + domain, ProbeTimeoutMs)]
  {
  }

  /** HTTP is tried only after HTTPS failed, and its answer is then reported. */
  lemma HttpFallback(domain: string, net: Oracles)
    requires ValidHostname(domain)
    requires net.fetch("https://" + domain, ProbeTimeoutMs).FetchFailed?
    requires net.fetch("http://" + domain, ProbeTimeoutMs).FetchOk?
    ensures var o := net.fetch("http://" + domain, ProbeTimeoutMs);
      Decide(domain, net) == CheckResult(domain, Some("http://" + domain), true, Some(o.status),
                                         Some(o.finalUrl), None, None)
    ensures DecideTrace(domain, net) ==
      [Fetch("https://" + domain, ProbeTimeoutMs), Fetch("http://" + domain, ProbeTimeoutMs)]
  {
    var cands, https, http := Candidates(domain), "https://" + domain, "http://" + domain;
    assert cands[0] == https && cands[1..] == [http] && [http][1..] == [];
    var o := net.fetch(http, ProbeTimeoutMs);
    assert FirstSuccess([http], net) == Some(Answer(http, o.status, o.finalUrl));
    assert FirstSuccess(cands, net) == FirstSuccess([http], net);
    assert ProbeTrace([http], net) == [Fetch(http, ProbeTimeoutMs)];
    assert ProbeTrace(cands, net) == [Fetch(https, ProbeTimeoutMs)] + ProbeTrace([http], net);
  }

  /** When both schemes fail the result carries the generic error and the DNS diagnosis. */
  lemma BothFail(domain: string, net: Oracles)
    requires ValidHostname(domain)
    requires net.fetch("https://" + domain, ProbeTimeoutMs).FetchFailed?
    requires net.fetch("http://" + domain, ProbeTimeoutMs).FetchFailed?
    ensures Decide(domain, net) == CheckResult(domain, None, false, None, None, Some(UnreachableError),
                                               Some(Diagnose(domain, net)))
    ensures DecideTrace(domain, net) ==
      [Fetch("https://" + domain, ProbeTimeoutMs), Fetch("http://" + domain, ProbeTimeoutMs)]
      + DnsTrace(domain)
  {
    var cands, https, http := Candidates(domain), "https://" + domain, "http://" + domain;
    assert cands[0] == https && cands[1..] == [http] && [http][1..] == [];
    assert FirstSuccess(cands, net) == FirstSuccess([http], net) == None;
    assert ProbeTrace([http], net) == [Fetch(http, ProbeTimeoutMs)] + ProbeTrace([], net);
    assert ProbeTrace(cands, net) == [Fetch(https, ProbeTimeoutMs)] + ProbeTrace([http], net);
  }
}
