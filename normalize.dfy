/** `normalizeDomain` (server.js): user text to a hostname, through the WHATWG URL parser. */
module Normalize {
  import opened Base
  import opened JsText
  import opened Hostname

  const DefaultScheme := "http://"

  /** The text handed to `new URL(...)`: a scheme is added when there is no `://`. */
  function ParserInput(s: string): (r: string)
    ensures Contains(r, "://")
    ensures Contains(s, "://") ==> r == s
    ensures !Contains(s, "://") ==> r == DefaultScheme + s
  {
    if Contains(s, "://") then s
    else
      var r := DefaultScheme + s;
      assert r[4..4 + 3] == "://";
      ContainsAt(r, "://", 4);
      r
  }

  /**
   * `normalizeDomain(raw)`. `urlHost` stands for `new URL(input).hostname`: None when the parser
   * throws, otherwise the host it recognised (possibly empty).
   */
  function NormalizeDomain(raw: string, urlHost: string -> Option<string>): (r: Option<string>)
    ensures Trim(raw) == [] ==> r == None
    ensures Trim(raw) != [] ==> r == urlHost(ParserInput(Trim(raw)))
  {
    if raw == "" then None
    else
      var t := Trim(raw);
      if t == "" then None else urlHost(ParserInput(t))
  }

  /** Whitespace around the entry does not matter: only its trimmed text reaches the parser. */
  lemma NormalizeIgnoresSurroundingWhitespace(raw: string, urlHost: string -> Option<string>)
    ensures NormalizeDomain(Trim(raw), urlHost) == NormalizeDomain(raw, urlHost)
  {
    TrimIdempotent(raw);
  }

  /** The `filter(Boolean)` test on a normalized entry: neither null nor the empty string. */
  predicate Present(r: Option<string>)
  {
    r.Some? && r.value != ""
  }

  /**
   * Normalizing a valid hostname gives it back, provided the URL parser returns the host of
   * `http://` followed by that hostname unchanged (WHATWG host parsing lower-cases letters, so
   * this holds for lower-case hostnames).
   */
  lemma NormalizeValidHostname(h: string, urlHost: string -> Option<string>)
    requires ValidHostname(h)
    requires urlHost(DefaultScheme + h) == Some(h)
    ensures NormalizeDomain(h, urlHost) == Some(h)
  {
    ValidHostnameText(h);
    TrimUnchanged(h);
    if Contains(h, "://") {
      ContainsFirstChar(h, "://");
      assert false;
    }
  }
}
