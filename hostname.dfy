/**
 * The structural hostname check `isValidHostname` (server.js), in the spirit of section 2.1 of
 * RFC 1123 and sections 2.3.1 and 2.3.4 of RFC 1035. It gates both probing and WHOIS lookups.
 */
module Hostname {
  import opened JsText

  const MaxHostnameLength := 253
  const MaxLabelLength := 63

  /** `[a-z0-9]` under the `i` flag. */
  predicate IsAlnum(c: char)
  {
    'a' <= c <= 'z' || 'A' <= c <= 'Z' || '0' <= c <= '9'
  }

  /** `[a-z0-9-]` under the `i` flag. */
  predicate IsLabelChar(c: char)
  {
    IsAlnum(c) || c == '-'
  }

  /** `/^[a-z0-9][a-z0-9-]*[a-z0-9]$/i.test(lab)`: two or more characters, alphanumeric at both ends. */
  predicate MatchesLabelPattern(lab: string)
  {
    |lab| >= 2 && IsAlnum(lab[0]) && IsAlnum(lab[|lab| - 1])
    && forall k :: 0 < k < |lab| - 1 ==> IsLabelChar(lab[k])
  }

  /** The test one label must pass. */
  predicate LabelOk(lab: string)
  {
    1 <= |lab| <= MaxLabelLength && MatchesLabelPattern(lab)
  }

  /** What `isValidHostname(h)` decides for a string `h`. */
  predicate ValidHostname(h: string)
  {
    var labels := Split(h, '.');
    h != "" && |h| <= MaxHostnameLength && forall i :: 0 <= i < |labels| ==> LabelOk(labels[i])
  }

  /** `isValidHostname`: early returns on the empty string, the length limit and the first bad label. */
  method IsValidHostname(h: string) returns (ok: bool)
    ensures ok == ValidHostname(h)
  {
    if h == "" {
      return false;
    }
    if |h| > MaxHostnameLength {
      return false;
    }
    var labels := Split(h, '.');
    for i := 0 to |labels|
      invariant forall j :: 0 <= j < i ==> LabelOk(labels[j])
    {
      var lab := labels[i];
      if |lab| == 0 || |lab| > MaxLabelLength {
        return false;
      }
      if !MatchesLabelPattern(lab) {
        return false;
      }
    }
    return true;
  }

  /** Character-level facts about a dot-joined sequence of pattern-matching labels. */
  ghost predicate WellFormedText(s: string)
  {
    && |s| >= 2 && IsAlnum(s[0]) && IsAlnum(s[|s| - 1])
    && (forall k :: 0 <= k < |s| ==> IsLabelChar(s[k]) || s[k] == '.')
    && (forall k :: 0 <= k < |s| && s[k] == '.' ==>
          2 <= k <= |s| - 3 && IsAlnum(s[k - 1]) && IsAlnum(s[k + 1])
          && s[k - 2] != '.' && s[k + 2] != '.')
  }

  lemma {:induction false} JoinedLabelsWellFormed(parts: seq<string>)
    requires |parts| >= 1
    requires forall i :: 0 <= i < |parts| ==> MatchesLabelPattern(parts[i])
    ensures WellFormedText(Join(parts, '.'))
    decreases |parts|
  {
    if |parts| > 1 {
      JoinedLabelsWellFormed(parts[1..]);
      PrependLabel(parts[0], Join(parts[1..], '.'));
    }
  }

  /** A label, a dot, then well-formed text: still well-formed. */
  lemma PrependLabel(p: string, t: string)
    requires MatchesLabelPattern(p) && WellFormedText(t)
    ensures WellFormedText(p + ['.'] + t)
  {
    var s := p + ['.'] + t;
    assert forall k :: 0 <= k < |p| ==> s[k] == p[k];
    assert s[|p|] == '.';
    assert forall k :: |p| < k < |s| ==> s[k] == t[k - |p| - 1];
    forall k | 0 <= k < |s| && s[k] == '.'
      ensures 2 <= k <= |s| - 3 && IsAlnum(s[k - 1]) && IsAlnum(s[k + 1])
      ensures s[k - 2] != '.' && s[k + 2] != '.'
    {
      if k < |p| {
        assert false;
      } else if k > |p| {
        var k' := k - |p| - 1;
        assert t[k'] == '.';
      } else {
        assert t[1] != '.';
        if |p| == 2 { assert s[k - 2] == p[0]; }
      }
    }
  }

  /**
   * A valid hostname is at least two characters long, made only of letters, digits, `-` and `.`,
   * begins and ends with a letter or digit, and every dot sits between two letters or digits
   * with at least two non-dot characters on each side.
   */
  lemma ValidHostnameText(h: string)
    requires ValidHostname(h)
    ensures WellFormedText(h)
  {
    JoinSplit(h, '.');
    JoinedLabelsWellFormed(Split(h, '.'));
  }

  /** No leading or trailing dot, no empty label, no leading or trailing hyphen. */
  lemma RejectedShapes(h: string)
    requires h != ""
    requires h[0] == '.' || h[|h| - 1] == '.' || h[0] == '-' || h[|h| - 1] == '-'
             || (exists k :: 0 <= k < |h| - 1 && h[k] == '.' && h[k + 1] == '.')
    ensures !ValidHostname(h)
  {
    if ValidHostname(h) {
      ValidHostnameText(h);
    }
  }

  /**
   * A one-character label is refused wherever it stands: a character with a dot or an end of the
   * name on each side (as in `x.com`, `ab.c`, `a.b.cd` or the name `x`).
   */
  lemma SingleCharacterLabelRejected(h: string, k: nat)
    requires k < |h| && (k == 0 || h[k - 1] == '.') && (k + 1 == |h| || h[k + 1] == '.')
    ensures !ValidHostname(h)
  {
    if ValidHostname(h) {
      ValidHostnameText(h);
    }
  }

  /** The overall length cap and the per-label cap. */
  lemma TooLongRejected(h: string, i: nat)
    requires |h| > MaxHostnameLength || (i < |Split(h, '.')| && |Split(h, '.')[i]| > MaxLabelLength)
    ensures !ValidHostname(h)
  {
  }

  lemma ExamplesRejected()
    ensures !ValidHostname("x.com")
    ensures !ValidHostname("ab.c")
    ensures !ValidHostname("x")
    ensures !ValidHostname("a..b")
  {
    SingleCharacterLabelRejected("x.com", 0);
    SingleCharacterLabelRejected("ab.c", 3);
    SingleCharacterLabelRejected("x", 0);
    assert "a..b"[1] == '.' && "a..b"[2] == '.';
    RejectedShapes("a..b");
  }
}
