# Domain status checker, modelled in Dafny

The domain status checker is a small web tool. A user pastes a list of domains. The Node.js server
(`server.js`) probes each one over HTTPS and then HTTP. For a domain that does not answer, it
collects DNS records. On request it runs a WHOIS lookup with a guess at availability. The browser
client (`public/app.js`) splits the typed list and shows a fake progress bar while it waits. It
renders every cell through an HTML escaper and exports the results as CSV.

This project models the core of both files:

- the hostname validator and the domain normalizer;
- the DNS diagnosis, the WHOIS lookup with its key search and availability heuristic;
- the per-domain probe and the `/check` and `/whois` handlers;
- on the client side: list splitting, the progress bar, the WHOIS status label, HTML and CSV
  escaping, and the CSV export.

The outside world is a set of oracles: the `fetch` with timeout, `dns.resolve`/`dns.resolveSoa`,
`whois-json`, the WHATWG URL parser's host and `JSON.stringify`. Every modelled operation that uses
them also returns the list of requests it sent, in order. "No probe" and "the WHOIS query comes
after the five DNS queries" are therefore statements about that list.

Modules, in dependency order:

- `Base`: `Option`, subsequences, `Map`.
- `JsText`: JavaScript's `trim`, `split`, `join`, `toLowerCase` on ASCII, `replace(/c/g, …)` and
  `String(n)`.
- `Values`: JSON-like values, truthiness and `String(v)`.
- `Network`: the oracles and the request list.
- `Hostname`, `Normalize`, `Dns`, `Whois`, `Probe`, `Handlers`: the server.
- `HtmlEscape`, `Csv`, `Client`, `Progress`: the client.

Loops of the source are methods with loop invariants, proved equal to recursive reference
functions. The class `Progress.ProgressBar` holds the client's mutable progress state.

## Model

| member | source | states |
|---|---|---|
| JsText.Trim | server.js:33 | the result is a slice of the input whose prefix before it and suffix after it are all JavaScript whitespace, and it neither begins nor ends with whitespace; so it holds only characters of the input |
| JsText.TrimIdempotent | public/app.js:125 | trimming twice is trimming once |
| JsText.TrimUnchanged | server.js:33 | text with no surrounding whitespace is returned as it is |
| JsText.Split | server.js:49 | `split` gives at least one piece and no piece contains the separator |
| JsText.JoinSplit | server.js:49 | joining the pieces of a split with the same separator gives the original text back |
| JsText.SplitJoin | server.js:49 | splitting a join of separator-free pieces gives the pieces back |
| JsText.ContainsIgnoringCaseLower | server.js:120-121 | a case-insensitive search finds the same phrases in the lower-cased text |
| JsText.NumberToString | public/app.js:298 | `String(n)` of an integer is a non-empty digit string, preceded by `-` exactly when `n` is negative |
| JsText.DigitsRoundTrip | public/app.js:298 | the decimal digits denote the number, and only zero begins with `0` |
| JsText.NumberToStringRoundTrip | public/app.js:298 | reading `String(n)` back as an integer gives `n` |
| JsText.ReplaceAllAppend | public/app.js:315 | a global one-character replacement distributes over concatenation |
| Hostname.IsValidHostname | server.js:46-55 | the early-return loop accepts exactly the non-empty names of at most 253 characters whose dot-separated labels each have 1 to 63 characters and match `^[a-z0-9][a-z0-9-]*[a-z0-9]$` (ignoring case) |
| Hostname.ValidHostnameText | server.js:46-55 | a valid hostname has at least two characters, uses only letters, digits, `-` and `.`, starts and ends alphanumeric, and every dot has two non-dot characters on each side |
| Hostname.JoinedLabelsWellFormed | server.js:49-53 | dot-joining labels that match the pattern gives such text |
| Hostname.RejectedShapes | server.js:47-52 | a leading or trailing dot or hyphen, or two dots in a row, fails validation |
| Hostname.SingleCharacterLabelRejected | server.js:52 | a name with any one-character label (first, last, inner or the whole name) fails, because the pattern needs two characters per label |
| Hostname.TooLongRejected | server.js:48-51 | more than 253 characters, or one label over 63, fails |
| Hostname.ExamplesRejected | server.js:46-55 | `x.com`, `ab.c`, `x` and `a..b` are refused |
| Normalize.ParserInput | server.js:37 | the parser input always contains `://`: the text itself when it already did, `http://` plus the text otherwise |
| Normalize.NormalizeIgnoresSurroundingWhitespace | server.js:31-43 | surrounding whitespace does not matter: normalizing the trimmed text gives the same result as normalizing the text |
| Normalize.NormalizeValidHostname | server.js:31-43 | a valid hostname normalizes to itself when the URL parser returns its host unchanged |
| Dns.Diagnose | server.js:58-79 | the diagnosis names the queried domain and carries no error; each of A, AAAA, CNAME and NS holds its lookup's records when it resolved and is empty otherwise; SOA is the record when it resolved and null otherwise; the status is the status rule applied to those lists |
| Dns.StatusOf | server.js:67-73 | `resolves` exactly when A, AAAA or CNAME has records; `has-ns-only` exactly when none of them does and NS does; `no-records` exactly when all four are empty; never `error` or `unknown` |
| Dns.CheckDns | server.js:58-79 | the five sequential lookups give the reference diagnosis and send exactly the A, AAAA, CNAME, NS and SOA queries, in that order, whatever they answer |
| Dns.StatusRule | server.js:67-73 | `resolves` exactly when an A, AAAA or CNAME lookup returned records; otherwise `has-ns-only` exactly when NS did; otherwise `no-records`; `error` and `unknown` never occur |
| Dns.StatusMonotone | server.js:67-73 | more records never give a lower status |
| Dns.LookupsIndependent | server.js:61-65 | each field depends only on its own lookup, so one failing lookup leaves the others' fields unchanged |
| Whois.ProbeKey | server.js:100-102 | a truthy top-level property is the hit; otherwise a truthy `registryData` object with a truthy property is the hit; a hit is truthy; it misses exactly on an object without a truthy such property whose `registryData` is either falsy or an object without one; it throws exactly on a non-object, or on a truthy non-object `registryData` when the top level misses |
| Whois.FindFirstSpec | server.js:97-105 | a found value is truthy; a falsy object gives null; on a truthy object, a first key that does not miss decides the outcome |
| Whois.FindFirstInOrder | server.js:99-104 | the first key that does not miss decides the outcome |
| Whois.FindFirstNotFound | server.js:97-105 | on a truthy object the result is null exactly when every key misses |
| Whois.FindFirst | server.js:97-105 | the `for…of` with early returns, including the TypeError that `in` raises on a non-object, computes the reference outcome |
| Whois.FindFirstNoThrow | server.js:100-102 | with no truthy non-object `registryData`, an object never makes the search throw |
| Whois.Availability | server.js:113-123 | available exactly when the reply names no domain (`domainName` or `domain`) and the serialized reply contains an absence phrase in any case |
| Whois.LowerKeepsMatches | server.js:120-121 | lower-casing the serialized reply before the case-insensitive test finds the same phrases |
| Whois.NoMatchForMeansAvailable | server.js:113-123 | a reply without a domain name whose text says "No match for" is judged available |
| Whois.WhoisLookup | server.js:82-130 | the record names the domain; `available` is null exactly when `error` is set; an error leaves registrar and expiry null; `parsed` is truthy and is set exactly for a valid hostname whose query returned |
| Whois.RunWhois | server.js:82-130 | the field-by-field method gives the reference record, and sends one WHOIS query (follow 3, timeout 15000 ms) only for a valid hostname |
| Whois.WhoisInvalidHostname | server.js:85-88 | an invalid hostname gives only the `invalid hostname` error, with no query |
| Whois.WhoisQueryFailed | server.js:91 | a failed query gives only its message as error |
| Whois.WhoisParsedObject | server.js:93-124 | for a parsed object: no error, registrar and expiry from the key lists, registered if it names a domain, else available exactly when an absence phrase occurs |
| Probe.Candidates | server.js:138 | two candidate URLs, `https://` then `http://`, each followed by the domain |
| Probe.FirstSuccess | server.js:138-144 | an answer is the first candidate whose fetch completed, every earlier one having failed, and it carries that fetch's status and final URL; no answer means every candidate's fetch failed |
| Probe.Decide | server.js:133-149 | reachable exactly when a status is present; a reachable result has URL and final URL and no error; an unreachable one has an error; DNS info is attached exactly on `unreachable or timed out` |
| Probe.CheckDomain | server.js:133-149 | the probe loop gives the reference result and sends the fetches up to the first that completes, then the DNS queries only if none did |
| Probe.InvalidNotProbed | server.js:134-136 | an invalid hostname is answered at once, with no request |
| Probe.HttpsPreferred | server.js:138-143 | when HTTPS answers, its answer is reported and HTTP is never tried |
| Probe.HttpFallback | server.js:138-143 | HTTP is tried only after HTTPS failed, and its answer is then reported |
| Probe.BothFail | server.js:146-148 | both schemes failing gives the generic error, the DNS diagnosis, two fetches and then the five DNS queries |
| Handlers.NormalizeAll | server.js:157 | `map(normalizeDomain).filter(Boolean)` keeps no empty hostname |
| Handlers.NormalizeAllElements | server.js:157 | a hostname survives exactly when some entry normalizes to it |
| Handlers.NormalizeAllAppend | server.js:157 | normalization goes entry by entry: the hostnames of two runs of entries are those of the first followed by those of the second |
| Handlers.NormalizeOne | server.js:157 | a single entry gives its hostname, or nothing when it does not normalize |
| Handlers.Dedup | server.js:158-159 | the seen-set filter keeps exactly the first occurrence of each hostname |
| Handlers.KeepFirstElements | server.js:158-159 | deduplication keeps every hostname and adds none |
| Handlers.KeepFirstNoDuplicates | server.js:158-159 | after deduplication no hostname occurs twice |
| Handlers.KeepFirstSubsequence | server.js:158-159 | deduplication only deletes, keeping the order |
| Handlers.KeepFirstOrder | server.js:158-159 | the kept hostnames appear in the order of their first occurrences |
| Handlers.KeepFirstDistinct | server.js:158-159 | a list without duplicates is unchanged |
| Handlers.BatchResultsAt | server.js:161-167 | one result per hostname, at the same position |
| Handlers.BatchDomains | server.js:161-167 | one result per hostname, for that hostname, in the same order |
| Handlers.CheckEach | server.js:161-167 | the sequential loop gives one `checkDomain` result per hostname and sends their requests one domain after the other |
| Handlers.HandleCheck | server.js:152-174 | a non-array `domains` is refused with 400 and no request; otherwise normalize, deduplicate, then check each in turn |
| Handlers.CheckResponseFor | server.js:152-174 | a 400 with `domains must be array` exactly when `domains` is not an array; otherwise one result per deduplicated hostname, in order |
| Handlers.CheckResults | server.js:154-169 | the results follow the deduplicated hostnames; no domain is repeated; every result comes from some entry and every normalizable entry has one; first-occurrence order |
| Handlers.CheckRejectsNonArray | server.js:155 | a non-array body gets `domains must be array` |
| Handlers.DuplicateCheckedOnce | server.js:157-159 | the same entry twice is checked once |
| Handlers.UnparsableDropped | server.js:157 | an entry that does not normalize produces no result |
| Handlers.SingleChecked | server.js:157-169 | a single normalizable entry gives exactly its own check result |
| Handlers.SingleReachable | server.js:157-169 | a single entry that answers over HTTPS gives exactly that answer |
| Handlers.HandleWhois | server.js:177-194 | the two 400 guards, then DNS and WHOIS, give the reference response and request list |
| Handlers.WhoisResponseFor | server.js:177-194 | a 200 answer exactly when the field normalizes to a valid hostname, with DNS and WHOIS records for that hostname; otherwise `invalid or missing domain` when it does not normalize and `invalid hostname` when it does |
| Handlers.WhoisAnswered | server.js:179-189 | a 200 answer comes exactly for a valid normalized hostname; then the WHOIS query follows the five DNS queries whatever DNS answered, and a parsed reply is reported |
| HtmlEscape.EscapeHtml | public/app.js:313-316 | null and undefined become the empty string |
| HtmlEscape.EscapeTextChar | public/app.js:315 | the three passes map `&`, `<`, `>` to their entities and leave any other single character |
| HtmlEscape.EscapeTextIsOnePass | public/app.js:315 | because `&` is replaced first, the three passes equal one left-to-right pass that never re-escapes an entity |
| HtmlEscape.UnescapeEscape | public/app.js:313-316 | decoding the three entities recovers the input exactly |
| HtmlEscape.EscapeText | public/app.js:315 | the three replacements leave text without `&`, `<` and `>` as it is |
| HtmlEscape.OnePassNoMarkup | public/app.js:315 | the output of the single pass holds no `<` and no `>` |
| HtmlEscape.EscapeHtmlNoMarkup | public/app.js:313-316 | escaped output holds no `<` and no `>`, so it cannot open or close a tag |
| Csv.EscapeFieldShape | public/app.js:318 | a field with a comma, quote or line feed comes out between quotes; any other comes out as it is |
| Csv.CsvEscape | public/app.js:318 | null and undefined give an empty cell; otherwise `String(v)` as it is when it has no comma, quote or line feed, and between quotes when it has one |
| Csv.CsvEscapeOf | public/app.js:318 | null and undefined give an empty cell; a string is quoted as a field |
| Csv.JoinEscaped | public/app.js:300 | joining the escaped cells with commas is writing the record |
| Csv.FieldRoundTrip | public/app.js:318 | a reader that takes `""` inside quotes as `"` reads the escaped field back exactly and stops at the next delimiter |
| Csv.RecordRoundTrip | public/app.js:296-300 | a written record reads back as its fields |
| Csv.CsvRoundTrip | public/app.js:302 | newline-joined written records read back as the records |
| Client.SplitInput | public/app.js:124 | the split at line breaks and commas gives at least one piece, none holding a line feed or comma |
| Client.SplitInputPiece | public/app.js:124 | text without a line feed or comma is one piece |
| Client.SplitInputAt | public/app.js:124 | around a comma, a `\r\n`, or a `\n` not preceded by `\r`, the pieces are those of the text before followed by those of the text after; with the single-piece case this fixes the split of every text |
| Client.NonEmpty | public/app.js:126 | `filter(Boolean)` keeps no empty string, and a string is kept exactly when it is in the input and non-empty |
| Client.NonEmptyAppend | public/app.js:126 | filtering goes piece by piece: filtering two runs is filtering each and concatenating |
| Client.NonEmptyKeeps | public/app.js:126 | filtering keeps any property all pieces have |
| Client.Items | public/app.js:123-126 | every item sent is non-empty, trimmed, and free of line feeds and commas |
| Client.ItemsOfPiece | public/app.js:123-126 | text without a line feed or comma gives its trimmed self, or nothing when that is empty |
| Client.ItemsAt | public/app.js:123-126 | around a separator, the items are those of the text before followed by those of the text after |
| Client.NonEmptySubsequence | public/app.js:126 | filtering only deletes, keeping order |
| Client.ItemsInOrder | public/app.js:123-126 | the items keep the order of the trimmed pieces, and an item is sent exactly when it is a non-empty trimmed piece |
| Client.NonEmptyAll | public/app.js:126 | a list without empty strings is unchanged |
| Client.SplitInputOnLines | public/app.js:124 | text without `\r` and commas splits like a plain split on line feeds |
| Client.OneDomainPerLine | public/app.js:122-126 | a list typed one clean domain per line comes back exactly, in order |
| Client.StatusLabel | public/app.js:262 | "Available" exactly for `true`; "Unknown" exactly when `available` is not a boolean and the error is truthy; "Registered" otherwise |
| Client.LabelOfLookup | public/app.js:262 | against the server's lookup: "Available" exactly when the heuristic said so, "Unknown" exactly for a non-empty error, "Registered" otherwise |
| Client.InvalidHostnameLabel | public/app.js:262 | an invalid hostname is labelled "Unknown" |
| Client.StatusCell | public/app.js:298 | the status exactly when it is present and non-zero (a status of 0 counts as missing), otherwise the error text, or the empty string when there is none |
| Client.RowCells | public/app.js:296-299 | five cells, the third `yes` exactly when the result is reachable and `no` otherwise |
| Client.BuildRow | public/app.js:296-300 | the loop body's line is the row's five fields written as one CSV record |
| Client.ExportCsv | public/app.js:291-301 | no results gives no download; otherwise the header line and then one row line per result, in order |
| Client.RowCellsEscaped | public/app.js:296-299 | each of the five cells is its field, quoted; `yes` and `no` need no quoting |
| Client.RowEncoded | public/app.js:296-300 | a row line is the row's fields written as a record |
| Client.HeaderEncoded | public/app.js:293-294 | the header line is the header written as a record |
| Client.ExportRecordsShape | public/app.js:293-301 | the header, then per result five fields: domain, checked URL or empty, `yes`/`no` as reachable, the non-zero status or else the error, final URL or empty |
| Client.RowsEncoded | public/app.js:295-301 | each row line is its result's fields, written |
| Client.LinesEncoded | public/app.js:293-301 | a written header followed by the row lines are the records written |
| Client.ExportLinesEncoded | public/app.js:293-301 | every exported line is its record written |
| Client.ExportReadsBack | public/app.js:291-302 | the downloaded text reads back as the header plus exactly one five-field row per result, in order |
| Progress.Clamp | public/app.js:73 | the shown value lies in [0, 100] and is the nearest such value to the input |
| Progress.NextPct | public/app.js:88-90 | a tick never passes 70, strictly advances below 70, stays at 70 from there, and is at least 1 from a non-negative value |
| Progress.ReachesCap | public/app.js:87-93 | from at most 70 the ticks reach 70 after finitely many steps and stay below 70 before that |
| Progress.IterateIncreasing | public/app.js:88-90 | successive tick values increase strictly until 70 |
| Progress.TicksFromStart | public/app.js:85-92 | from 3 the bar reaches 70 after 22 ticks |
| Progress.ProgressBar.constructor | public/app.js:13-14 | the bar starts at 0% with `Idle` and no interval |
| Progress.ProgressBar.SetProgress | public/app.js:72-81 | shows the clamped value and its message; `currentFakePct` becomes the larger of itself and that value |
| Progress.ProgressBar.Stop | public/app.js:96-101 | clears the interval and forgets its handle, changing nothing shown |
| Progress.ProgressBar.Start | public/app.js:83-94 | restarts from 3 with `Starting...` and schedules the tick |
| Progress.ProgressBar.Tick | public/app.js:87-93 | advances by the tick rule, shows `Checking domains...`, and stops firing exactly on reaching 70 |

## Left out

- HTTP and the network: `fetchWithTimeout` with its `AbortController` timer, `dns.promises`, `whois-json` and the browser's `fetch` are oracles. Their outcomes are inputs; timing and redirects are not modelled.
- The WHATWG URL parser is a parameter giving the host or a parse failure. Its own host rules (lower-casing, IDNA, percent-decoding) are not modelled.
- `JSON.stringify` is a parameter `serialize`. The exact text it produces is not modelled.
- Express routing, body parsing, static files, `listRoutes`, `console` logging and the listening port are not modelled.
- The two `500` branches of `/check` and `/whois` (server.js:170-173 and 190-193) are not modelled. `checkDomain`, `checkDNS` and `runWhois` catch their own failures, but `String(raw)` at server.js:33 runs outside `normalizeDomain`'s `try`: a `domains` entry whose conversion throws (an object such as `{"toString":1}`) makes `/check` answer 500. Such entries are exactly the non-string entries the model leaves out (next line), so within the model the branch cannot be reached.
- The outer `catch` of `checkDNS` and its `error` status are unreachable: each lookup has its own `catch`. `Dns.StatusRule` proves the status is never `error`. The code sets `error` only in that unreachable branch.
- `domains` entries are strings: `String(raw)` of numbers, objects or `null` entries in the request array is not modelled, nor the 500 an entry whose conversion throws leads to.
- The `/whois` body's `domain` field is an optional string: `String()` of a non-string truthy value (the number 5 becoming `"5"`, at server.js:179 by way of line 33) is not modelled.
- WHOIS values have no arrays: `parsed` is null, a boolean, an integer, a string or an object. `String` of an array and inherited `Object.prototype` keys for `in` are not modelled.
- Numbers are integers: `Math.round` in `setProgress` is the identity, and floating-point values are not modelled.
- `toLowerCase` and the `i` flag fold ASCII letters only. Unicode case mapping is not modelled.
- Text is a sequence of Unicode code points, where JavaScript uses UTF-16 code units. Lengths differ for characters outside the Basic Multilingual Plane.
- The DOM: table rendering, `renderResultsWithProgress`, the WHOIS detail row's HTML, the file input, the clear button, the `alert`s and `sleep` are not modelled. So are the `Blob` download and the timing of `setInterval` (each firing is one `Tick` call).
- The CSV reader is a reference for the round trip. `csvEscape` does not quote `\r`, and the reader keeps a `\r` inside a field as text.
- The tick clears its interval without setting the handle to null, as the source does; a later `stopFakeProgress` clears it again.
- `null` and `undefined` are both `Null`. Where the source tests `== null`, the two behave the same.
