/** The `POST /check` and `POST /whois` handler bodies (server.js). */
module Handlers {
  import opened Base
  import opened Hostname
  import opened Normalize
  import opened Network
  import opened Values
  import opened Dns
  import opened Probe
  import opened Whois

  const DomainsMustBeArray := "domains must be array"
  const InvalidOrMissingDomain := "invalid or missing domain"

  /** `domains.map(normalizeDomain).filter(Boolean)`. */
  function NormalizeAll(domains: seq<string>, urlHost: string -> Option<string>): (hosts: seq<string>)
    ensures forall i :: 0 <= i < |hosts| ==> hosts[i] != ""
  {
    if domains == [] then []
    else NormalizeAll(domains[..|domains| - 1], urlHost) + Survivor(domains[|domains| - 1], urlHost)
  }

  /** What one entry contributes: its hostname when it normalizes to a non-empty one. */
  function Survivor(raw: string, urlHost: string -> Option<string>): (hs: seq<string>)
    ensures |hs| <= 1 && forall i :: 0 <= i < |hs| ==> hs[i] != ""
  {
    var n := NormalizeDomain(raw, urlHost);
    if Present(n) then [n.value] else []
  }

  /** The surviving hostnames are exactly the non-empty normalizations of the entries. */
  lemma {:induction false} NormalizeAllElements(domains: seq<string>, urlHost: string -> Option<string>)
    ensures forall h :: h in NormalizeAll(domains, urlHost) <==>
      exists raw :: raw in domains && NormalizeDomain(raw, urlHost) == Some(h) && h != ""
  {
    if domains != [] {
      var prefix, last := domains[..|domains| - 1], domains[|domains| - 1];
      NormalizeAllElements(prefix, urlHost);
      assert domains == prefix + [last];
    }
  }

  /**
   * Normalization goes entry by entry: the hostnames of two consecutive runs of entries are the
   * hostnames of the first run followed by those of the second, so order and repeats are kept.
   */
  lemma {:induction false} NormalizeAllAppend(a: seq<string>, b: seq<string>, urlHost: string -> Option<string>)
    ensures NormalizeAll(a + b, urlHost) == NormalizeAll(a, urlHost) + NormalizeAll(b, urlHost)
    decreases |b|
  {
    if b == [] {
      assert a + b == a;
    } else {
      var b', x := b[..|b| - 1], b[|b| - 1];
      SplitLast(a, b);
      calc {
        NormalizeAll(a + b, urlHost);
        NormalizeAll((a + b') + [x], urlHost);
        { NormalizeAllSnoc(a + b', x, urlHost); }
        NormalizeAll(a + b', urlHost) + Survivor(x, urlHost);
        { NormalizeAllAppend(a, b', urlHost); }
        (NormalizeAll(a, urlHost) + NormalizeAll(b', urlHost)) + Survivor(x, urlHost);
        { AppendAssoc(NormalizeAll(a, urlHost), NormalizeAll(b', urlHost), Survivor(x, urlHost)); }
        NormalizeAll(a, urlHost) + (NormalizeAll(b', urlHost) + Survivor(x, urlHost));
        { NormalizeAllSnoc(b', x, urlHost); }
        NormalizeAll(a, urlHost) + NormalizeAll(b' + [x], urlHost);
        NormalizeAll(a, urlHost) + NormalizeAll(b, urlHost);
      }
    }
  }

  /** Appending one entry appends what that entry contributes. */
  lemma NormalizeAllSnoc(xs: seq<string>, x: string, urlHost: string -> Option<string>)
    ensures NormalizeAll(xs + [x], urlHost) == NormalizeAll(xs, urlHost) + Survivor(x, urlHost)
  {
    assert (xs + [x])[..|xs|] == xs;
  }

  /** A single entry survives exactly when it normalizes to a non-empty hostname. */
  lemma NormalizeOne(raw: string, urlHost: string -> Option<string>)
    ensures var n := NormalizeDomain(raw, urlHost);
      NormalizeAll([raw], urlHost) == if Present(n) then [n.value] else []
  {
    assert [raw][..0] == [];
  }

  /** Every element at its first occurrence, in input order: the reference for deduplication. */
  function KeepFirst(xs: seq<string>): seq<string>
  {
    if xs == [] then []
    else
      var prefix := xs[..|xs| - 1];
      var x := xs[|xs| - 1];
      if x in prefix then KeepFirst(prefix) else KeepFirst(prefix) + [x]
  }

  /** The `filter` with a `seen` set on line 159: keep a hostname the first time it is seen. */
  method Dedup(xs: seq<string>) returns (ys: seq<string>)
    ensures ys == KeepFirst(xs)
  {
    var seen: set<string> := {};
    ys := [];
    for i := 0 to |xs|
      invariant ys == KeepFirst(xs[..i])
      invariant forall x :: x in seen <==> x in xs[..i]
    {
      var d := xs[i];
      assert xs[..i + 1] == xs[..i] + [d];
      assert xs[..i + 1][..i] == xs[..i];
      if d !in seen {
        seen := seen + {d};
        ys := ys + [d];
      }
    }
    assert xs[..|xs|] == xs;
  }

  lemma {:induction false} KeepFirstElements(xs: seq<string>)
    ensures forall x :: x in KeepFirst(xs) <==> x in xs
  {
    if xs != [] {
      var prefix := xs[..|xs| - 1];
      KeepFirstElements(prefix);
      assert xs == prefix + [xs[|xs| - 1]];
    }
  }

  lemma {:induction false} KeepFirstNoDuplicates(xs: seq<string>)
    ensures NoDuplicates(KeepFirst(xs))
  {
    if xs != [] {
      var prefix := xs[..|xs| - 1];
      KeepFirstNoDuplicates(prefix);
      KeepFirstElements(prefix);
    }
  }

  lemma {:induction false} KeepFirstSubsequence(xs: seq<string>)
    ensures IsSubsequence(KeepFirst(xs), xs)
  {
    if xs != [] {
      var prefix, x := xs[..|xs| - 1], xs[|xs| - 1];
      KeepFirstSubsequence(prefix);
      assert xs == prefix + [x];
      if x in prefix {
        SubsequenceSkip(KeepFirst(prefix), prefix, x);
      } else {
        SubsequenceExtend(KeepFirst(prefix), prefix, x);
      }
    }
  }

  /**
   * Every element of `ys` occurs in `xs`, and `ys` lists them by first occurrence in `xs`: for
   * `i < j`, every occurrence of `ys[j]` comes after some occurrence of `ys[i]`.
   */
  ghost predicate InFirstOccurrenceOrder(ys: seq<string>, xs: seq<string>)
  {
    && (forall i :: 0 <= i < |ys| ==> ys[i] in xs)
    && (forall i, j, k :: 0 <= i < j < |ys| && 0 <= k < |xs| && xs[k] == ys[j] ==> ys[i] in xs[..k])
  }

  /** The survivors are ordered by the position of their first occurrence in the input. */
  lemma {:induction false} KeepFirstOrder(xs: seq<string>)
    ensures InFirstOccurrenceOrder(KeepFirst(xs), xs)
  {
    if xs != [] {
      var prefix, x := xs[..|xs| - 1], xs[|xs| - 1];
      KeepFirstOrder(prefix);
      KeepFirstElements(prefix);
      assert xs == prefix + [x];
      KeepFirstOrderStep(prefix, x);
    }
  }

  /** Appending one element keeps the survivors in first-occurrence order. */
  lemma KeepFirstOrderStep(prefix: seq<string>, x: string)
    requires InFirstOccurrenceOrder(KeepFirst(prefix), prefix)
    requires forall y :: y in KeepFirst(prefix) <==> y in prefix
    ensures InFirstOccurrenceOrder(KeepFirst(prefix + [x]), prefix + [x])
  {
    var xs, init := prefix + [x], KeepFirst(prefix);
    assert xs[..|xs| - 1] == prefix;
    var ys := KeepFirst(xs);
    assert ys == if x in prefix then init else init + [x];
    forall i, j, k | 0 <= i < j < |ys| && 0 <= k < |xs| && xs[k] == ys[j]
      ensures ys[i] in xs[..k]
    {
      assert ys[i] == init[i] && init[i] in prefix;
      if k < |prefix| {
        assert xs[k] == prefix[k] && xs[..k] == prefix[..k];
        assert ys[j] == init[j];
      } else {
        assert xs[..k] == prefix;
      }
    }
  }

  /** A list without repeats comes through unchanged. */
  lemma {:induction false} KeepFirstDistinct(xs: seq<string>)
    requires NoDuplicates(xs)
    ensures KeepFirst(xs) == xs
  {
    if xs != [] {
      var prefix, x := xs[..|xs| - 1], xs[|xs| - 1];
      KeepFirstDistinct(prefix);
      assert xs == prefix + [x];
    }
  }

  /** The hostnames `/check` probes, in order. */
  function CheckedHosts(domains: seq<string>, urlHost: string -> Option<string>): seq<string>
  {
    KeepFirst(NormalizeAll(domains, urlHost))
  }

  /** The requests of checking `hosts` one after the other. */
  function BatchTrace(hosts: seq<string>, net: Oracles): seq<Effect>
  {
    if hosts == [] then []
    else BatchTrace(hosts[..|hosts| - 1], net) + DecideTrace(hosts[|hosts| - 1], net)
  }

  /** The results of checking `hosts` one after the other. */
  function BatchResults(hosts: seq<string>, net: Oracles): seq<CheckResult>
  {
    if hosts == [] then []
    else BatchResults(hosts[..|hosts| - 1], net) + [Decide(hosts[|hosts| - 1], net)]
  }

  /** One result per hostname, at its position. */
  lemma {:induction false} BatchResultsAt(hosts: seq<string>, net: Oracles)
    ensures |BatchResults(hosts, net)| == |hosts|
    ensures forall i :: 0 <= i < |hosts| ==> BatchResults(hosts, net)[i] == Decide(hosts[i], net)
  {
    if hosts != [] {
      BatchResultsAt(hosts[..|hosts| - 1], net);
    }
  }

  datatype CheckResponse = CheckOk(results: seq<CheckResult>) | CheckBadRequest(error: string)

  /** The response of `POST /check`; `domains` is None when the body's `domains` is not an array. */
  function CheckResponseFor(domains: Option<seq<string>>, net: Oracles, urlHost: string -> Option<string>): (resp: CheckResponse)
    ensures resp.CheckBadRequest? <==> domains.None?
    ensures resp.CheckBadRequest? ==> resp.error == DomainsMustBeArray
    ensures resp.CheckOk? ==> var hosts := CheckedHosts(domains.value, urlHost);
      |resp.results| == |hosts| && forall i :: 0 <= i < |hosts| ==> resp.results[i].domain == hosts[i]
  {
    if domains.None? then CheckBadRequest(DomainsMustBeArray)
    else
      var hosts := CheckedHosts(domains.value, urlHost);
      BatchDomains(hosts, net);
      CheckOk(BatchResults(hosts, net))
  }

  /** The `for…of` over the deduplicated hostnames, checking one at a time. */
  method CheckEach(hosts: seq<string>, net: Oracles) returns (results: seq<CheckResult>, trace: seq<Effect>)
    ensures results == BatchResults(hosts, net)
    ensures trace == BatchTrace(hosts, net)
  {
    results := [];
    trace := [];
    for i := 0 to |hosts|
      invariant results == BatchResults(hosts[..i], net)
      invariant trace == BatchTrace(hosts[..i], net)
    {
      var r, t := CheckDomain(hosts[i], net);
      assert hosts[..i + 1][..i] == hosts[..i];
      results := results + [r];
      trace := trace + t;
    }
    assert hosts[..|hosts|] == hosts;
  }

  /** The `/check` handler: normalize, deduplicate, then check each hostname in turn. */
  method HandleCheck(domains: Option<seq<string>>, net: Oracles, urlHost: string -> Option<string>)
    returns (resp: CheckResponse, trace: seq<Effect>)
    ensures resp == CheckResponseFor(domains, net, urlHost)
    ensures trace == if domains.None? then [] else BatchTrace(CheckedHosts(domains.value, urlHost), net)
  {
    if domains.None? {
      return CheckBadRequest(DomainsMustBeArray), [];
    }
    var hosts := NormalizeAll(domains.value, urlHost);
    hosts := Dedup(hosts);
    var results;
    results, trace := CheckEach(hosts, net);
    resp := CheckOk(results);
  }

  /**
   * One result per probed hostname, in first-occurrence order, with no hostname twice; every
   * result's domain is the normalization of some input entry, and every entry that normalizes to
   * a non-empty hostname has a result. Entries that do not normalize are dropped without a trace.
   */
  lemma CheckResults(domains: seq<string>, net: Oracles, urlHost: string -> Option<string>)
    ensures var resp := CheckResponseFor(Some(domains), net, urlHost);
      var hosts := CheckedHosts(domains, urlHost);
      && resp.CheckOk?
      && |resp.results| == |hosts|
      && (forall i :: 0 <= i < |hosts| ==> resp.results[i].domain == hosts[i])
      && (forall i, j :: 0 <= i < j < |hosts| ==> resp.results[i].domain != resp.results[j].domain)
      && (forall h :: h in hosts <==>
            exists raw :: raw in domains && NormalizeDomain(raw, urlHost) == Some(h) && h != "")
      && IsSubsequence(hosts, NormalizeAll(domains, urlHost))
      && InFirstOccurrenceOrder(hosts, NormalizeAll(domains, urlHost))
  {
    var all := NormalizeAll(domains, urlHost);
    BatchDomains(KeepFirst(all), net);
    NormalizeAllElements(domains, urlHost);
    KeepFirstNoDuplicates(all);
    KeepFirstElements(all);
    KeepFirstSubsequence(all);
    KeepFirstOrder(all);
  }

  /** Result `i` is about hostname `i`. */
  lemma BatchDomains(hosts: seq<string>, net: Oracles)
    ensures |BatchResults(hosts, net)| == |hosts|
    ensures forall i :: 0 <= i < |hosts| ==> BatchResults(hosts, net)[i].domain == hosts[i]
  {
    BatchResultsAt(hosts, net);
  }

  /** A request whose `domains` is not an array is refused with 400 and nothing is checked. */
  lemma CheckRejectsNonArray(net: Oracles, urlHost: string -> Option<string>)
    ensures CheckResponseFor(None, net, urlHost) == CheckBadRequest(DomainsMustBeArray)
  {
  }

  /** The same entry twice is checked once. */
  lemma DuplicateCheckedOnce(raw: string, net: Oracles, urlHost: string -> Option<string>)
    requires Present(NormalizeDomain(raw, urlHost))
    ensures CheckResponseFor(Some([raw, raw]), net, urlHost) ==
      CheckOk([Decide(NormalizeDomain(raw, urlHost).value, net)])
  {
    var h := NormalizeDomain(raw, urlHost).value;
    CheckedTwice(raw, urlHost);
    BatchSingle(h, net);
    assert CheckResponseFor(Some([raw, raw]), net, urlHost) == CheckOk(BatchResults([h], net));
  }

  lemma CheckedTwice(raw: string, urlHost: string -> Option<string>)
    requires Present(NormalizeDomain(raw, urlHost))
    ensures CheckedHosts([raw, raw], urlHost) == [NormalizeDomain(raw, urlHost).value]
  {
    var h := NormalizeDomain(raw, urlHost).value;
    assert [raw, raw] == [raw] + [raw];
    calc {
      NormalizeAll([raw, raw], urlHost);
      NormalizeAll([raw] + [raw], urlHost);
      { NormalizeAllSnoc([raw], raw, urlHost); }
      NormalizeAll([raw], urlHost) + Survivor(raw, urlHost);
      { NormalizeOne(raw, urlHost); }
      [h] + [h];
    }
    KeepFirstPair(h);
  }

  lemma KeepFirstPair(h: string)
    ensures KeepFirst([h] + [h]) == [h]
  {
    var xs := [h] + [h];
    assert xs[..|xs| - 1] == [h] && xs[|xs| - 1] == h && h in [h];
    KeepFirstSingle(h);
  }

  /** An entry the URL parser rejects produces no result at all. */
  lemma UnparsableDropped(raw: string, net: Oracles, urlHost: string -> Option<string>)
    requires !Present(NormalizeDomain(raw, urlHost))
    ensures CheckResponseFor(Some([raw]), net, urlHost) == CheckOk([])
  {
    NormalizeOne(raw, urlHost);
  }

  /** A single entry that normalizes is checked on its own. */
  lemma SingleChecked(raw: string, net: Oracles, urlHost: string -> Option<string>)
    requires Present(NormalizeDomain(raw, urlHost))
    ensures CheckResponseFor(Some([raw]), net, urlHost) ==
      CheckOk([Decide(NormalizeDomain(raw, urlHost).value, net)])
  {
    var h := NormalizeDomain(raw, urlHost).value;
    NormalizeOne(raw, urlHost);
    KeepFirstSingle(h);
    assert CheckedHosts([raw], urlHost) == [h];
    BatchSingle(h, net);
  }

  lemma KeepFirstSingle(h: string)
    ensures KeepFirst([h]) == [h]
  {
    assert [h][..0] == [];
  }

  lemma BatchSingle(h: string, net: Oracles)
    ensures BatchResults([h], net) == [Decide(h, net)]
  {
    assert [h][..0] == [];
  }

  /** A single entry whose hostname answers over HTTPS gives exactly that answer. */
  lemma SingleReachable(raw: string, net: Oracles, urlHost: string -> Option<string>)
    requires Present(NormalizeDomain(raw, urlHost))
    requires var h := NormalizeDomain(raw, urlHost).value;
      ValidHostname(h) && net.fetch("https://" + h, ProbeTimeoutMs).FetchOk?
    ensures var h := NormalizeDomain(raw, urlHost).value;
      var o := net.fetch("https://" + h, ProbeTimeoutMs);
      CheckResponseFor(Some([raw]), net, urlHost) ==
        CheckOk([CheckResult(h, Some("https://" + h), true, Some(o.status), Some(o.finalUrl), None, None)])
  {
    SingleChecked(raw, net, urlHost);
    HttpsPreferred(NormalizeDomain(raw, urlHost).value, net);
  }

  datatype WhoisResponse = WhoisOk(dnsInfo: DnsInfo, whoisInfo: WhoisInfo) | WhoisBadRequest(error: string)

  /** `req.body?.domain || ''`: a missing or empty field becomes the empty string. */
  function DomainField(domain: Option<string>): string
  {
    if domain.Some? then domain.value else ""
  }

  /** The response of `POST /whois`. */
  function WhoisResponseFor(domain: Option<string>, net: Oracles, urlHost: string -> Option<string>,
                            serialize: Value -> string): (resp: WhoisResponse)
    ensures var n := NormalizeDomain(DomainField(domain), urlHost);
      && (resp.WhoisOk? <==> Present(n) && ValidHostname(n.value))
      && (resp.WhoisBadRequest? ==> resp.error == (if Present(n) then InvalidHostname else InvalidOrMissingDomain))
      && (resp.WhoisOk? ==> resp.dnsInfo.domain == n.value && resp.whoisInfo.domain == n.value)
  {
    var n := NormalizeDomain(DomainField(domain), urlHost);
    if !Present(n) then WhoisBadRequest(InvalidOrMissingDomain)
    else if !ValidHostname(n.value) then WhoisBadRequest(InvalidHostname)
    else WhoisOk(Diagnose(n.value, net), WhoisLookup(n.value, net, serialize))
  }

  /** The requests `POST /whois` sends. */
  function WhoisRequestTrace(domain: Option<string>, urlHost: string -> Option<string>): seq<Effect>
  {
    var n := NormalizeDomain(DomainField(domain), urlHost);
    if Present(n) && ValidHostname(n.value) then DnsTrace(n.value) + WhoisTrace(n.value) else []
  }

  /** The `/whois` handler: two 400 guards, then DNS for context and the WHOIS lookup. */
  method HandleWhois(domain: Option<string>, net: Oracles, urlHost: string -> Option<string>,
                     serialize: Value -> string)
    returns (resp: WhoisResponse, trace: seq<Effect>)
    ensures resp == WhoisResponseFor(domain, net, urlHost, serialize)
    ensures trace == WhoisRequestTrace(domain, urlHost)
  {
    var host := NormalizeDomain(DomainField(domain), urlHost);
    if host.None? || host.value == "" {
      return WhoisBadRequest(InvalidOrMissingDomain), [];
    }
    var valid := IsValidHostname(host.value);
    if !valid {
      return WhoisBadRequest(InvalidHostname), [];
    }
    var dnsInfo, dnsTrace := CheckDns(host.value, net);
    var whoisInfo, whoisTrace := RunWhois(host.value, net, serialize);
    resp := WhoisOk(dnsInfo, whoisInfo);
    trace := dnsTrace + whoisTrace;
  }

  /**
   * A 200 answer comes only for a valid hostname; then the WHOIS query is always sent after the
   * five DNS queries, whatever DNS answered, and the lookup's own hostname guard never fires.
   */
  lemma WhoisAnswered(domain: Option<string>, net: Oracles, urlHost: string -> Option<string>,
                      serialize: Value -> string)
    ensures var resp := WhoisResponseFor(domain, net, urlHost, serialize);
      var n := NormalizeDomain(DomainField(domain), urlHost);
      && (resp.WhoisOk? <==> Present(n) && ValidHostname(n.value))
      && (resp.WhoisOk? ==>
            && resp.dnsInfo == Diagnose(n.value, net)
            && resp.whoisInfo.domain == n.value
            && WhoisRequestTrace(domain, urlHost) ==
                 DnsTrace(n.value) + [WhoisQuery(n.value, WhoisFollow, WhoisTimeoutMs)]
            && (net.whois(n.value, WhoisFollow, WhoisTimeoutMs).Parsed? ==> resp.whoisInfo.parsed.Some?))
  {
    var n := NormalizeDomain(DomainField(domain), urlHost);
    if Present(n) && ValidHostname(n.value) {
      assert WhoisResponseFor(domain, net, urlHost, serialize) ==
        WhoisOk(Diagnose(n.value, net), WhoisLookup(n.value, net, serialize));
      assert WhoisRequestTrace(domain, urlHost) == DnsTrace(n.value) + WhoisTrace(n.value);
    }
  }
}
