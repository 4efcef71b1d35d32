/** `runWhois` (server.js): WHOIS lookup, key-guessing for registrar and expiry, availability guess. */
module Whois {
  import opened Base
  import opened JsText
  import opened Values
  import opened Network
  import opened Hostname

  const WhoisFollow: nat := 3
  const WhoisTimeoutMs: nat := 15000
  const InvalidHostname := "invalid hostname"
  const RegistryData := "registryData"
  const ExpiryKeys := ["expirationDate", "expires", "expiryDate", "paid-till", "registryExpiryDate", "expire"]
  const RegistrarKeys := ["registrar", "registrarName", "Registrar"]
  /** The alternatives of `/no match|not found|no entries found|status: free|available/i`. */
  const AbsencePhrases := ["no match", "not found", "no entries found", "status: free", "available"]

  /** The `out` record of `runWhois`. */
  datatype WhoisInfo = WhoisInfo(
    domain: string,
    parsed: Option<Value>,
    registrar: Option<string>,
    expiry: Option<string>,
    available: Option<bool>,
    error: Option<string>)

  /** The message of the TypeError `k in v` raises when `v` is not an object. */
  function InOperatorError(k: string, v: Value): string
  {
    "Cannot use 'in' operator to search for '" + k + "' in " + ToStr(v)
  }

  /** What looking up one key in a truthy `obj` gives, before moving to the next key. */
  datatype KeyProbe = Hit(v: Value) | Miss | Throws(message: string)

  /**
   * One iteration of the loop in `findFirst`: the top level first, then `registryData` when that is
   * truthy. `in` on a value that is not an object throws.
   */
  function ProbeKey(obj: Value, k: string): (p: KeyProbe)
    ensures p.Hit? ==> Truthy(p.v)
    ensures obj.Obj? && TruthyField(obj.fields, k) ==> p == Hit(obj.fields[k])
    ensures obj.Obj? && !TruthyField(obj.fields, k) && TruthyField(obj.fields, RegistryData)
            && obj.fields[RegistryData].Obj? && TruthyField(obj.fields[RegistryData].fields, k)
            ==> p == Hit(obj.fields[RegistryData].fields[k])
    ensures p == Miss <==>
      && obj.Obj? && !TruthyField(obj.fields, k)
      && (TruthyField(obj.fields, RegistryData) ==>
            obj.fields[RegistryData].Obj? && !TruthyField(obj.fields[RegistryData].fields, k))
    ensures p.Throws? <==>
      || !obj.Obj?
      || (!TruthyField(obj.fields, k) && TruthyField(obj.fields, RegistryData) && !obj.fields[RegistryData].Obj?)
  {
    if !obj.Obj? then Throws(InOperatorError(k, obj))
    else
      var m := obj.fields;
      if TruthyField(m, k) then Hit(m[k])
      else if TruthyField(m, RegistryData) then
        var reg := m[RegistryData];
        if !reg.Obj? then Throws(InOperatorError(k, reg))
        else if TruthyField(reg.fields, k) then Hit(reg.fields[k])
        else Miss
      else Miss
  }

  datatype FindOutcome = Found(v: Value) | NotFound | FindThrew(message: string)

  /** `findFirst(obj, keys)`: no object means `null`; otherwise the first key that does not miss decides. */
  function FindFirstSpec(obj: Value, keys: seq<string>): (r: FindOutcome)
    ensures r.Found? ==> Truthy(r.v)
    ensures !Truthy(obj) ==> r == NotFound
    ensures Truthy(obj) && |keys| > 0 && ProbeKey(obj, keys[0]) != Miss ==> r == OutcomeOf(ProbeKey(obj, keys[0]))
  {
    if !Truthy(obj) || keys == [] then NotFound
    else
      match ProbeKey(obj, keys[0])
      case Hit(v) => Found(v)
      case Throws(msg) => FindThrew(msg)
      case Miss => FindFirstSpec(obj, keys[1..])
  }

  function OutcomeOf(p: KeyProbe): FindOutcome
  {
    match p
    case Hit(v) => Found(v)
    case Miss => NotFound
    case Throws(msg) => FindThrew(msg)
  }

  /**
   * The keys are tried strictly in order: the first key that does not miss (with its top-level
   * value preferred to its `registryData` value) gives the outcome, and the outcome is "not found"
   * exactly when every key misses.
   */
  lemma {:induction false} FindFirstInOrder(obj: Value, keys: seq<string>, i: nat)
    requires Truthy(obj) && i < |keys|
    requires forall j :: 0 <= j < i ==> ProbeKey(obj, keys[j]) == Miss
    requires ProbeKey(obj, keys[i]) != Miss
    ensures FindFirstSpec(obj, keys) == OutcomeOf(ProbeKey(obj, keys[i]))
    decreases i
  {
    if i > 0 {
      FindFirstInOrder(obj, keys[1..], i - 1);
    }
  }

  lemma {:induction false} FindFirstNotFound(obj: Value, keys: seq<string>)
    requires Truthy(obj)
    ensures FindFirstSpec(obj, keys) == NotFound <==>
              forall j :: 0 <= j < |keys| ==> ProbeKey(obj, keys[j]) == Miss
  {
    if keys != [] {
      FindFirstNotFound(obj, keys[1..]);
      if ProbeKey(obj, keys[0]) == Miss {
        assert forall j :: 1 <= j < |keys| ==> keys[j] == keys[1..][j - 1];
      }
    }
  }

  /** `findFirst`: a `for…of` over the keys with an early return. */
  method FindFirst(obj: Value, keys: seq<string>) returns (r: FindOutcome)
    ensures r == FindFirstSpec(obj, keys)
  {
    if !Truthy(obj) {
      return NotFound;
    }
    for i := 0 to |keys|
      invariant FindFirstSpec(obj, keys[i..]) == FindFirstSpec(obj, keys)
    {
      var k := keys[i];
      assert keys[i..][0] == k && keys[i..][1..] == keys[i + 1..];
      if !obj.Obj? {
        return FindThrew(InOperatorError(k, obj));
      }
      var m := obj.fields;
      if k in m && Truthy(m[k]) {
        return Found(m[k]);
      }
      if RegistryData in m && Truthy(m[RegistryData]) {
        var reg := m[RegistryData];
        if !reg.Obj? {
          return FindThrew(InOperatorError(k, reg));
        }
        if k in reg.fields && Truthy(reg.fields[k]) {
          return Found(reg.fields[k]);
        }
      }
    }
    return NotFound;
  }

  /** Without a truthy non-object `registryData`, looking keys up in an object never throws. */
  lemma {:induction false} FindFirstNoThrow(m: map<string, Value>, keys: seq<string>)
    requires !TruthyField(m, RegistryData) || m[RegistryData].Obj?
    ensures !FindFirstSpec(Obj(m), keys).FindThrew?
  {
    if keys != [] {
      FindFirstNoThrow(m, keys[1..]);
    }
  }

  /** `expiry ? String(expiry) : null`. */
  function TextOf(r: FindOutcome): Option<string>
  {
    if r.Found? then Some(ToStr(r.v)) else None
  }

  /** `parsed && (parsed.domainName || parsed.domain)`. */
  predicate NamesADomain(parsed: Value)
  {
    parsed.Obj? && (TruthyField(parsed.fields, "domainName") || TruthyField(parsed.fields, "domain"))
  }

  /** Some phrase occurs in `text`, compared case-insensitively. */
  predicate MatchesAny(text: string, phrases: seq<string>)
  {
    exists i :: 0 <= i < |phrases| && ContainsIgnoringCase(text, phrases[i])
  }

  /**
   * The availability heuristic: registered when the reply names a domain; otherwise available
   * exactly when the lower-cased serialized reply mentions one of the absence phrases. Because the
   * test ignores case anyway, that is: available exactly when no domain is named and an absence
   * phrase occurs in the serialized reply in any letter case.
   */
  function Availability(parsed: Value, serialized: string): (available: bool)
    ensures available <==> !NamesADomain(parsed) && MatchesAny(serialized, AbsencePhrases)
  {
    LowerKeepsMatches(serialized, AbsencePhrases);
    if NamesADomain(parsed) then false else MatchesAny(Lower(serialized), AbsencePhrases)
  }

  /** The `toLowerCase()` before the case-insensitive test changes nothing. */
  lemma LowerKeepsMatches(serialized: string, phrases: seq<string>)
    ensures MatchesAny(Lower(serialized), phrases) == MatchesAny(serialized, phrases)
  {
    forall i | 0 <= i < |phrases|
      ensures ContainsIgnoringCase(Lower(serialized), phrases[i]) == ContainsIgnoringCase(serialized, phrases[i])
    {
      ContainsIgnoringCaseLower(serialized, phrases[i]);
    }
  }

  /** A reply whose text says "No match for" (in any letter case) and names no domain is "available". */
  lemma NoMatchForMeansAvailable(parsed: Value, serialized: string)
    requires !NamesADomain(parsed)
    requires Contains(serialized, "No match for")
    ensures Availability(parsed, serialized)
  {
    ContainsIgnoringCaseOfContains(serialized, "No match for");
    assert "No match for" == "No match" + " for";
    ContainsIgnoringCasePrefix(serialized, "No match", " for");
    ContainsIgnoringCaseSamePattern(serialized, "No match", "no match");
    assert ContainsIgnoringCase(serialized, AbsencePhrases[0]);
  }

  lemma {:induction false} ContainsIgnoringCaseSamePattern(s: string, p: string, q: string)
    requires |p| == |q| && forall k :: 0 <= k < |p| ==> FoldChar(p[k]) == FoldChar(q[k])
    requires ContainsIgnoringCase(s, p)
    ensures ContainsIgnoringCase(s, q)
    decreases |s|
  {
    if !StartsWithIgnoringCase(s, p) {
      ContainsIgnoringCaseSamePattern(s[1..], p, q);
    }
  }

  /** The record `runWhois(domain)` resolves to; `serialize` stands for `JSON.stringify`. */
  function WhoisLookup(domain: string, net: Oracles, serialize: Value -> string): (w: WhoisInfo)
    ensures w.domain == domain
    ensures w.available.None? <==> w.error.Some?
    ensures w.error.Some? ==> w.registrar == None && w.expiry == None
    ensures w.parsed.Some? ==> Truthy(w.parsed.value)
    ensures w.parsed.Some? <==> ValidHostname(domain) && net.whois(domain, WhoisFollow, WhoisTimeoutMs).Parsed?
  {
    var out := WhoisInfo(domain, None, None, None, None, None);
    if !ValidHostname(domain) then out.(error := Some(InvalidHostname))
    else
      match net.whois(domain, WhoisFollow, WhoisTimeoutMs)
      case Threw(msg) => out.(error := Some(msg))
      case Parsed(parsed) =>
        var out := out.(parsed := Some(if Truthy(parsed) then parsed else Obj(map[])));
        var expiry := FindFirstSpec(parsed, ExpiryKeys);
        if expiry.FindThrew? then out.(error := Some(expiry.message))
        else
          var registrar := FindFirstSpec(parsed, RegistrarKeys);
          if registrar.FindThrew? then out.(error := Some(registrar.message))
          else
            out.(expiry := TextOf(expiry), registrar := TextOf(registrar),
                 available := Some(Availability(parsed, serialize(parsed))))
  }

  /** The requests `runWhois(domain)` sends: one WHOIS query, and only for a valid hostname. */
  function WhoisTrace(domain: string): seq<Effect>
  {
    if ValidHostname(domain) then [WhoisQuery(domain, WhoisFollow, WhoisTimeoutMs)] else []
  }

  /** `runWhois`: the `out` record is filled in field by field inside one `try`. */
  method RunWhois(domain: string, net: Oracles, serialize: Value -> string)
    returns (out: WhoisInfo, trace: seq<Effect>)
    ensures out == WhoisLookup(domain, net, serialize)
    ensures trace == WhoisTrace(domain)
  {
    out := WhoisInfo(domain, None, None, None, None, None);
    trace := [];
    var valid := IsValidHostname(domain);
    if !valid {
      out := out.(error := Some(InvalidHostname));
      return;
    }
    var reply := net.whois(domain, WhoisFollow, WhoisTimeoutMs);
    trace := [WhoisQuery(domain, WhoisFollow, WhoisTimeoutMs)];
    if reply.Threw? {
      out := out.(error := Some(reply.message));
      return;
    }
    var parsed := reply.parsed;
    out := out.(parsed := Some(if Truthy(parsed) then parsed else Obj(map[])));
    var expiry := FindFirst(parsed, ExpiryKeys);
    if expiry.FindThrew? {
      out := out.(error := Some(expiry.message));
      return;
    }
    var registrar := FindFirst(parsed, RegistrarKeys);
    if registrar.FindThrew? {
      out := out.(error := Some(registrar.message));
      return;
    }
    out := out.(expiry := TextOf(expiry), registrar := TextOf(registrar));
    var available := Availability(parsed, serialize(parsed));
    out := out.(available := Some(available));
  }

  /** An invalid hostname is refused before any query, with `available` left null. */
  lemma WhoisInvalidHostname(domain: string, net: Oracles, serialize: Value -> string)
    requires !ValidHostname(domain)
    ensures WhoisLookup(domain, net, serialize) == WhoisInfo(domain, None, None, None, None, Some(InvalidHostname))
    ensures WhoisTrace(domain) == []
  {
  }

  /** A failed query is reported in `error` with every other field left null. */
  lemma WhoisQueryFailed(domain: string, net: Oracles, serialize: Value -> string)
    requires ValidHostname(domain) && net.whois(domain, WhoisFollow, WhoisTimeoutMs).Threw?
    ensures WhoisLookup(domain, net, serialize) ==
      WhoisInfo(domain, None, None, None, None, Some(net.whois(domain, WhoisFollow, WhoisTimeoutMs).message))
  {
  }

  /**
   * For a parsed reply that is an object with at most an object as `registryData`:
   * registered when it names a domain, otherwise available exactly when its serialized text
   * mentions an absence phrase in any letter case; registrar and expiry come from the key lists.
   */
  lemma WhoisParsedObject(domain: string, net: Oracles, serialize: Value -> string, m: map<string, Value>)
    requires ValidHostname(domain) && net.whois(domain, WhoisFollow, WhoisTimeoutMs) == Parsed(Obj(m))
    requires !TruthyField(m, RegistryData) || m[RegistryData].Obj?
    ensures var w := WhoisLookup(domain, net, serialize);
      && w.error == None && w.parsed == Some(Obj(m))
      && w.expiry == TextOf(FindFirstSpec(Obj(m), ExpiryKeys))
      && w.registrar == TextOf(FindFirstSpec(Obj(m), RegistrarKeys))
      && (NamesADomain(Obj(m)) ==> w.available == Some(false))
      && (!NamesADomain(Obj(m)) ==>
            w.available == Some(MatchesAny(serialize(Obj(m)), AbsencePhrases)))
  {
    FindFirstNoThrow(m, ExpiryKeys);
    FindFirstNoThrow(m, RegistrarKeys);
  }
}
