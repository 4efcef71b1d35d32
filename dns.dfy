/** `checkDNS` (server.js): five independent lookups and the derived DNS status. */
module Dns {
  import opened Base
  import opened Network

  datatype DnsStatus = Resolves | HasNsOnly | NoRecords | Error | Unknown

  /** The `out` record of `checkDNS`. */
  datatype DnsInfo = DnsInfo(
    domain: string,
    a: seq<string>,
    aaaa: seq<string>,
    cname: seq<string>,
    ns: seq<string>,
    soa: Option<Soa>,
    dnsStatus: DnsStatus,
    error: Option<string>)

  /** The status rule, evaluated once every lookup has settled. */
  function StatusOf(a: seq<string>, aaaa: seq<string>, cname: seq<string>, ns: seq<string>): (st: DnsStatus)
    ensures st == Resolves <==> |a| + |aaaa| + |cname| > 0
    ensures st == HasNsOnly <==> |a| + |aaaa| + |cname| == 0 && |ns| > 0
    ensures st == NoRecords <==> |a| + |aaaa| + |cname| + |ns| == 0
    ensures st != Error && st != Unknown
  {
    if |a| > 0 || |aaaa| > 0 || |cname| > 0 then Resolves
    else if |ns| > 0 then HasNsOnly
    else NoRecords
  }

  /** A list lookup that rejects leaves the field at its default `[]`. */
  function RecordsOr(l: Lookup<seq<string>>): seq<string>
  {
    if l.Resolved? then l.records else []
  }

  /** A rejected SOA lookup leaves the field at its default `null`. */
  function SoaOr(l: Lookup<Soa>): Option<Soa>
  {
    if l.Resolved? then Some(l.records) else None
  }

  /** The record `checkDNS(domain)` produces against the oracles `net`. */
  function Diagnose(domain: string, net: Oracles): (d: DnsInfo)
    ensures d.domain == domain && d.error == None
    ensures net.resolve(domain, A).Resolved? ==> d.a == net.resolve(domain, A).records
    ensures !net.resolve(domain, A).Resolved? ==> d.a == []
    ensures net.resolve(domain, AAAA).Resolved? ==> d.aaaa == net.resolve(domain, AAAA).records
    ensures !net.resolve(domain, AAAA).Resolved? ==> d.aaaa == []
    ensures net.resolve(domain, CNAME).Resolved? ==> d.cname == net.resolve(domain, CNAME).records
    ensures !net.resolve(domain, CNAME).Resolved? ==> d.cname == []
    ensures net.resolve(domain, NS).Resolved? ==> d.ns == net.resolve(domain, NS).records
    ensures !net.resolve(domain, NS).Resolved? ==> d.ns == []
    ensures net.resolveSoa(domain).Resolved? ==> d.soa == Some(net.resolveSoa(domain).records)
    ensures !net.resolveSoa(domain).Resolved? ==> d.soa == None
    ensures d.dnsStatus == StatusOf(d.a, d.aaaa, d.cname, d.ns)
  {
    var a := RecordsOr(net.resolve(domain, A));
    var aaaa := RecordsOr(net.resolve(domain, AAAA));
    var cname := RecordsOr(net.resolve(domain, CNAME));
    var ns := RecordsOr(net.resolve(domain, NS));
    DnsInfo(domain, a, aaaa, cname, ns, SoaOr(net.resolveSoa(domain)), StatusOf(a, aaaa, cname, ns), None)
  }

  /** The five queries `checkDNS` sends, whatever each of them answers. */
  function DnsTrace(domain: string): seq<Effect>
  {
    [Resolve(domain, A), Resolve(domain, AAAA), Resolve(domain, CNAME), Resolve(domain, NS),
     ResolveSoa(domain)]
  }

  /** `checkDNS`: the record starts at its defaults and each successful lookup overwrites one field. */
  method CheckDns(domain: string, net: Oracles) returns (out: DnsInfo, trace: seq<Effect>)
    ensures out == Diagnose(domain, net)
    ensures trace == DnsTrace(domain)
  {
    out := DnsInfo(domain, [], [], [], [], None, Unknown, None);
    var a := net.resolve(domain, A);
    if a.Resolved? { out := out.(a := a.records); }
    var aaaa := net.resolve(domain, AAAA);
    if aaaa.Resolved? { out := out.(aaaa := aaaa.records); }
    var cname := net.resolve(domain, CNAME);
    if cname.Resolved? { out := out.(cname := cname.records); }
    var ns := net.resolve(domain, NS);
    if ns.Resolved? { out := out.(ns := ns.records); }
    var soa := net.resolveSoa(domain);
    if soa.Resolved? { out := out.(soa := Some(soa.records)); }
    trace := [Resolve(domain, A), Resolve(domain, AAAA), Resolve(domain, CNAME), Resolve(domain, NS),
              ResolveSoa(domain)];
    out := out.(dnsStatus := StatusOf(out.a, out.aaaa, out.cname, out.ns));
  }

  /**
   * `resolves` exactly when an A, AAAA or CNAME lookup returned a non-empty list; otherwise
   * `has-ns-only` exactly when the NS lookup did; otherwise `no-records`. `error` and `unknown`
   * are never produced.
   */
  lemma StatusRule(domain: string, net: Oracles)
    ensures var d := Diagnose(domain, net);
      var found := (rr: RecordType) => net.resolve(domain, rr).Resolved? && |net.resolve(domain, rr).records| > 0;
      && (d.dnsStatus == Resolves <==> found(A) || found(AAAA) || found(CNAME))
      && (d.dnsStatus == HasNsOnly <==> !found(A) && !found(AAAA) && !found(CNAME) && found(NS))
      && (d.dnsStatus == NoRecords <==> !found(A) && !found(AAAA) && !found(CNAME) && !found(NS))
      && d.dnsStatus != Error && d.dnsStatus != Unknown
  {
  }

  /** How much of the zone answered: `no-records` < `has-ns-only` < `resolves`. */
  function Rank(s: DnsStatus): nat
  {
    match s
    case NoRecords => 0
    case HasNsOnly => 1
    case Resolves => 2
    case _ => 0
  }

  /** More records never give a worse status. */
  lemma StatusMonotone(a: seq<string>, aaaa: seq<string>, cname: seq<string>, ns: seq<string>,
                       a': seq<string>, aaaa': seq<string>, cname': seq<string>, ns': seq<string>)
    requires |a| <= |a'| && |aaaa| <= |aaaa'| && |cname| <= |cname'| && |ns| <= |ns'|
    ensures Rank(StatusOf(a, aaaa, cname, ns)) <= Rank(StatusOf(a', aaaa', cname', ns'))
  {
  }

  /**
   * Failure isolation: each field of the diagnosis depends on its own lookup only, so one lookup
   * failing (or answering anything) cannot change another field.
   */
  lemma LookupsIndependent(domain: string, net: Oracles, net': Oracles)
    ensures (net.resolve(domain, A) == net'.resolve(domain, A)) ==>
              Diagnose(domain, net).a == Diagnose(domain, net').a
    ensures (net.resolve(domain, AAAA) == net'.resolve(domain, AAAA)) ==>
              Diagnose(domain, net).aaaa == Diagnose(domain, net').aaaa
    ensures (net.resolve(domain, CNAME) == net'.resolve(domain, CNAME)) ==>
              Diagnose(domain, net).cname == Diagnose(domain, net').cname
    ensures (net.resolve(domain, NS) == net'.resolve(domain, NS)) ==>
              Diagnose(domain, net).ns == Diagnose(domain, net').ns
    ensures (net.resolveSoa(domain) == net'.resolveSoa(domain)) ==>
              Diagnose(domain, net).soa == Diagnose(domain, net').soa
  {
  }
}
