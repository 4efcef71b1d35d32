/**
 * The outside world as seen by the server: HTTP fetches with a timeout, DNS queries and WHOIS
 * queries. Each is an oracle, a function from the request to its outcome, and every operation that
 * consults one also returns the list of requests it issued, in order.
 */
module Network {
  import opened Base
  import opened Values

  datatype RecordType = A | AAAA | CNAME | NS

  /** What `dns.resolveSoa` answers. */
  datatype Soa = Soa(nsname: string, hostmaster: string, serial: int, refresh: int,
                     retry: int, expire: int, minttl: int)

  /** A DNS lookup either answers or rejects. */
  datatype Lookup<T> = Resolved(records: T) | LookupFailed

  /** `fetchWithTimeout`: `{ok: true, status, finalUrl}` or `{ok: false, error}`. */
  datatype FetchOutcome = FetchOk(status: int, finalUrl: string) | FetchFailed(message: string)

  /** `whoisJson` resolves with a parsed value or throws; `message` is `String(err.message || err)`. */
  datatype WhoisReply = Parsed(parsed: Value) | Threw(message: string)

  /** One request sent to the outside world. */
  datatype Effect =
    | Fetch(url: string, timeoutMs: nat)
    | Resolve(host: string, rrtype: RecordType)
    | ResolveSoa(host: string)
    | WhoisQuery(host: string, follow: nat, timeoutMs: nat)

  datatype Oracles = Oracles(
    fetch: (string, nat) -> FetchOutcome,
    resolve: (string, RecordType) -> Lookup<seq<string>>,
    resolveSoa: string -> Lookup<Soa>,
    whois: (string, nat, nat) -> WhoisReply)
}
