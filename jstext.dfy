/**
 * The JavaScript string built-ins the program relies on: `trim`, `split` on a one-character
 * separator, `includes`, ASCII case folding and `String(n)` for integers.
 * JavaScript strings are sequences of UTF-16 code units; here a string is a sequence of
 * Unicode scalar values (Dafny's `char`), see README.
 */
module JsText {
  import Base

  /** WhiteSpace and LineTerminator code points, the set `String.prototype.trim` removes. */
  predicate IsJsWhitespace(c: char)
  {
    c == '\t' || c == '\n' || c == '\U{000B}' || c == '\U{000C}' || c == '\r' || c == ' '
    || c == '\U{00A0}' || c == '\U{1680}' || ('\U{2000}' <= c <= '\U{200A}')
    || c == '\U{2028}' || c == '\U{2029}' || c == '\U{202F}' || c == '\U{205F}'
    || c == '\U{3000}' || c == '\U{FEFF}'
  }

  /** Every character of `s` is whitespace. */
  predicate AllWhitespace(s: string)
  {
    forall k :: 0 <= k < |s| ==> IsJsWhitespace(s[k])
  }

  /** Removes leading whitespace: the result is the longest suffix that does not start with it. */
  function TrimStart(s: string): (r: string)
    ensures |r| <= |s| && r == s[|s| - |r|..]
    ensures r == [] || !IsJsWhitespace(r[0])
    ensures forall k :: 0 <= k < |s| - |r| ==> IsJsWhitespace(s[k])
  {
    if s != [] && IsJsWhitespace(s[0]) then
      var r := TrimStart(s[1..]);
      assert forall k :: 1 <= k < |s| ==> s[k] == s[1..][k - 1];
      r
    else s
  }

  /** Removes trailing whitespace: the result is the longest prefix that does not end with it. */
  function TrimEnd(s: string): (r: string)
    ensures |r| <= |s| && r == s[..|r|]
    ensures r == [] || !IsJsWhitespace(r[|r| - 1])
    ensures forall k :: |r| <= k < |s| ==> IsJsWhitespace(s[k])
  {
    if s != [] && IsJsWhitespace(s[|s| - 1]) then
      var r := TrimEnd(s[..|s| - 1]);
      assert forall k :: 0 <= k < |s| - 1 ==> s[k] == s[..|s| - 1][k];
      r
    else s
  }

  /**
   * `String.prototype.trim`: the input with a whitespace prefix and a whitespace suffix removed,
   * leaving text that neither begins nor ends with whitespace.
   */
  function Trim(s: string): (r: string)
    ensures r == [] || (!IsJsWhitespace(r[0]) && !IsJsWhitespace(r[|r| - 1]))
    ensures exists i, j :: TrimmedAt(s, r, i, j)
    ensures forall c :: c in r ==> c in s
  {
    TrimSlice(s);
    TrimEnd(TrimStart(s))
  }

  /** `r` is `s[i..j]`, and `s[..i]` and `s[j..]` are all whitespace. */
  predicate TrimmedAt(s: string, r: string, i: int, j: int)
  {
    0 <= i <= j <= |s| && r == s[i..j] && AllWhitespace(s[..i]) && AllWhitespace(s[j..])
  }

  /** The trimmed text is the slice of `s` after its leading whitespace. */
  lemma TrimSlice(s: string)
    ensures var r := TrimEnd(TrimStart(s)); r == [] || (!IsJsWhitespace(r[0]) && !IsJsWhitespace(r[|r| - 1]))
    ensures exists i, j :: TrimmedAt(s, TrimEnd(TrimStart(s)), i, j)
    ensures forall c :: c in TrimEnd(TrimStart(s)) ==> c in s
  {
    var t := TrimStart(s);
    var r := TrimEnd(t);
    var i := |s| - |t|;
    var j := i + |r|;
    LeadingWhitespace(s);
    TrailingWhitespace(t);
    SliceOfSlice(s, i, |r|);
    assert TrimmedAt(s, r, i, j);
    SliceMembers(s, i, j);
  }

  lemma LeadingWhitespace(s: string)
    ensures AllWhitespace(s[..|s| - |TrimStart(s)|])
  {
    var n := |s| - |TrimStart(s)|;
    forall k | 0 <= k < n ensures IsJsWhitespace(s[..n][k]) {
      assert s[..n][k] == s[k];
    }
  }

  lemma TrailingWhitespace(t: string)
    ensures AllWhitespace(t[|TrimEnd(t)|..])
  {
    var n := |TrimEnd(t)|;
    forall k | 0 <= k < |t| - n ensures IsJsWhitespace(t[n..][k]) {
      assert t[n..][k] == t[n + k];
    }
  }

  /** The parts of a suffix of `s` are slices of `s`. */
  lemma SliceOfSlice<T>(s: seq<T>, i: nat, m: nat)
    requires i + m <= |s|
    ensures s[i..][..m] == s[i..i + m] && s[i..][m..] == s[i + m..]
  {
  }

  /** A slice holds only elements of the whole. */
  lemma SliceMembers<T>(s: seq<T>, i: int, j: int)
    requires 0 <= i <= j <= |s|
    ensures forall c :: c in s[i..j] ==> c in s
  {
    forall c | c in s[i..j] ensures c in s {
      var k :| 0 <= k < j - i && s[i..j][k] == c;
      assert s[i + k] == c;
    }
  }

  lemma TrimUnchanged(s: string)
    requires s == [] || (!IsJsWhitespace(s[0]) && !IsJsWhitespace(s[|s| - 1]))
    ensures Trim(s) == s
  {
  }

  /** Trimming twice is trimming once. */
  lemma TrimIdempotent(s: string)
    ensures Trim(Trim(s)) == Trim(s)
  {
    TrimUnchanged(Trim(s));
  }

  /** `"" + p0 + sep + p1 + sep + ... + pn`: the inverse of `Split`. */
  function Join(parts: seq<string>, sep: char): string
    requires |parts| >= 1
  {
    if |parts| == 1 then parts[0] else parts[0] + [sep] + Join(parts[1..], sep)
  }

  /** `s.split(sep)` for a one-character separator (JavaScript keeps empty pieces). */
  function Split(s: string, sep: char): (parts: seq<string>)
    ensures |parts| >= 1
    ensures forall i :: 0 <= i < |parts| ==> sep !in parts[i]
  {
    if s == [] then [""]
    else
      var rest := Split(s[1..], sep);
      if s[0] == sep then [""] + rest else [[s[0]] + rest[0]] + rest[1..]
  }

  /** Joining the pieces of a split gives back the string. */
  lemma {:induction false} JoinSplit(s: string, sep: char)
    ensures Join(Split(s, sep), sep) == s
  {
    if s != [] {
      var rest := Split(s[1..], sep);
      JoinSplit(s[1..], sep);
      if s[0] != sep && |rest| > 1 {
        assert Split(s, sep)[1..] == rest[1..];
      }
    }
  }

  /** Splitting a join of separator-free pieces gives back the pieces. */
  lemma {:induction false} SplitJoin(parts: seq<string>, sep: char)
    requires |parts| >= 1
    requires forall i :: 0 <= i < |parts| ==> sep !in parts[i]
    ensures Split(Join(parts, sep), sep) == parts
    decreases |parts|, |parts[0]|
  {
    var p := parts[0];
    if |parts| == 1 {
      SplitNoSeparator(p, sep);
    } else if p == [] {
      SplitJoin(parts[1..], sep);
      assert Join(parts, sep) == [sep] + Join(parts[1..], sep);
      assert ([sep] + Join(parts[1..], sep))[1..] == Join(parts[1..], sep);
    } else {
      var parts' := [p[1..]] + parts[1..];
      SplitJoin(parts', sep);
      assert Join(parts', sep) == Join(parts, sep)[1..];
      assert [p[0]] + p[1..] == p;
      assert parts == [[p[0]] + parts'[0]] + parts'[1..];
    }
  }

  lemma {:induction false} SplitNoSeparator(s: string, sep: char)
    requires sep !in s
    ensures Split(s, sep) == [s]
  {
    if s != [] {
      SplitNoSeparator(s[1..], sep);
      assert [s[0]] + s[1..] == s;
    }
  }

  /** `s.startsWith(p)`. */
  predicate StartsWith(s: string, p: string)
  {
    |p| <= |s| && s[..|p|] == p
  }

  /** `s.includes(p)`: `p` occurs in `s` at some position. */
  predicate Contains(s: string, p: string)
    decreases |s|
  {
    StartsWith(s, p) || (s != [] && Contains(s[1..], p))
  }

  lemma {:induction false} ContainsAt(s: string, p: string, i: nat)
    requires i + |p| <= |s| && s[i..i + |p|] == p
    ensures Contains(s, p)
    decreases i
  {
    if i > 0 {
      assert s[1..][i - 1..i - 1 + |p|] == p;
      ContainsAt(s[1..], p, i - 1);
    }
  }

  /** Whatever occurs in `s` has its first character in `s`. */
  lemma {:induction false} ContainsFirstChar(s: string, p: string)
    requires p != [] && Contains(s, p)
    ensures p[0] in s
    decreases |s|
  {
    if !StartsWith(s, p) {
      ContainsFirstChar(s[1..], p);
    } else {
      assert s[0] == p[0];
    }
  }

  /** ASCII upper-case letters to lower case; every other character unchanged. */
  function LowerChar(c: char): char
  {
    if 'A' <= c <= 'Z' then (c as int + 32) as char else c
  }

  /** ASCII lower-case letters to upper case: the case folding of a `/i` regular expression. */
  function FoldChar(c: char): char
  {
    if 'a' <= c <= 'z' then (c as int - 32) as char else c
  }

  /** `s.toLowerCase()` on ASCII letters. */
  function Lower(s: string): (r: string)
    ensures |r| == |s|
    ensures forall k :: 0 <= k < |s| ==> r[k] == LowerChar(s[k])
  {
    seq(|s|, k requires 0 <= k < |s| => LowerChar(s[k]))
  }

  /** `s` starts with `p` when characters are compared case-insensitively. */
  predicate StartsWithIgnoringCase(s: string, p: string)
  {
    |p| <= |s| && forall k :: 0 <= k < |p| ==> FoldChar(s[k]) == FoldChar(p[k])
  }

  /** A `/p/i` regular-expression match somewhere in `s`. */
  predicate ContainsIgnoringCase(s: string, p: string)
    decreases |s|
  {
    StartsWithIgnoringCase(s, p) || (s != [] && ContainsIgnoringCase(s[1..], p))
  }

  lemma FoldLower(c: char)
    ensures FoldChar(LowerChar(c)) == FoldChar(c)
  {
  }

  /** Lower-casing the text first does not change a case-insensitive search. */
  lemma {:induction false} ContainsIgnoringCaseLower(s: string, p: string)
    ensures ContainsIgnoringCase(Lower(s), p) == ContainsIgnoringCase(s, p)
    decreases |s|
  {
    forall k | 0 <= k < |s| ensures FoldChar(Lower(s)[k]) == FoldChar(s[k]) {
      FoldLower(s[k]);
    }
    assert StartsWithIgnoringCase(Lower(s), p) == StartsWithIgnoringCase(s, p);
    if s != [] {
      assert Lower(s)[1..] == Lower(s[1..]);
      ContainsIgnoringCaseLower(s[1..], p);
    }
  }

  /** An exact occurrence is also a case-insensitive one. */
  lemma {:induction false} ContainsIgnoringCaseOfContains(s: string, p: string)
    requires Contains(s, p)
    ensures ContainsIgnoringCase(s, p)
    decreases |s|
  {
    if !StartsWith(s, p) {
      ContainsIgnoringCaseOfContains(s[1..], p);
    }
  }

  /** A case-insensitive occurrence of `p + q` contains one of `p`. */
  lemma {:induction false} ContainsIgnoringCasePrefix(s: string, p: string, q: string)
    requires ContainsIgnoringCase(s, p + q)
    ensures ContainsIgnoringCase(s, p)
    decreases |s|
  {
    if !StartsWithIgnoringCase(s, p + q) {
      ContainsIgnoringCasePrefix(s[1..], p, q);
    } else {
      assert forall k :: 0 <= k < |p| ==> (p + q)[k] == p[k];
    }
  }

  function DigitChar(d: nat): (c: char)
    requires d < 10
    ensures '0' <= c <= '9'
  {
    ('0' as int + d) as char
  }

  predicate IsDigits(s: string)
  {
    forall k :: 0 <= k < |s| ==> '0' <= s[k] <= '9'
  }

  /** Decimal digits of a natural number, most significant first, without leading zeros. */
  function Digits(n: nat): (r: string)
    ensures |r| >= 1 && IsDigits(r)
    decreases n
  {
    if n < 10 then [DigitChar(n)] else Digits(n / 10) + [DigitChar(n % 10)]
  }

  /** `String(n)` for an integer-valued JavaScript number below 10^21. */
  function NumberToString(n: int): (r: string)
    ensures n >= 0 ==> r != [] && IsDigits(r)
    ensures n < 0 ==> |r| >= 2 && r[0] == '-' && IsDigits(r[1..])
  {
    if n < 0 then "-" + Digits(-n) else Digits(n)
  }

  /** The value of a string of decimal digits, read most significant first. */
  function DigitsValue(s: string): nat
    requires IsDigits(s)
  {
    if s == [] then 0 else 10 * DigitsValue(s[..|s| - 1]) + (s[|s| - 1] as int - '0' as int)
  }

  /** Reading an integer's text back, as `Number(text)` does for such text. */
  function ParseInteger(s: string): int
    requires IsDigits(s) || (s != [] && s[0] == '-' && IsDigits(s[1..]))
  {
    if IsDigits(s) then DigitsValue(s) else -(DigitsValue(s[1..]) as int)
  }

  /** The digits denote the number, and only zero begins with `0`. */
  lemma {:induction false} DigitsRoundTrip(n: nat)
    ensures DigitsValue(Digits(n)) == n
    ensures Digits(n)[0] == '0' <==> n == 0
    decreases n
  {
    if n >= 10 {
      DigitsRoundTrip(n / 10);
      var r := Digits(n);
      assert r[..|r| - 1] == Digits(n / 10);
    }
  }

  /** `String(n)` loses nothing: reading it back gives `n`. */
  lemma NumberToStringRoundTrip(n: int)
    ensures ParseInteger(NumberToString(n)) == n
  {
    if n < 0 {
      DigitsRoundTrip(-n);
      var r := NumberToString(n);
      assert r[1..] == Digits(-n);
    } else {
      DigitsRoundTrip(n);
    }
  }

  /** `s.replace(/c/g, rep)` for a one-character pattern: every `c` becomes `rep`. */
  function ReplaceAll(s: string, c: char, rep: string): string
  {
    if s == [] then []
    else (if s[0] == c then rep else [s[0]]) + ReplaceAll(s[1..], c, rep)
  }

  /** Nothing to replace leaves the text as it is. */
  lemma {:induction false} ReplaceAllAbsent(s: string, c: char, rep: string)
    requires c !in s
    ensures ReplaceAll(s, c, rep) == s
  {
    if s != [] {
      ReplaceAllAbsent(s[1..], c, rep);
      assert s == [s[0]] + s[1..];
    }
  }

  /** The same, as an implication that can be stated for any text. */
  lemma ReplaceAllKeeps(s: string, c: char, rep: string)
    ensures c !in s ==> ReplaceAll(s, c, rep) == s
  {
    if c !in s {
      ReplaceAllAbsent(s, c, rep);
    }
  }

  lemma ReplaceAllSingle(c: char, d: char, rep: string)
    ensures ReplaceAll([c], d, rep) == if c == d then rep else [c]
  {
    assert [c][1..] == [];
  }

  lemma ReplaceAllCons(s: string, c: char, rep: string)
    requires s != []
    ensures ReplaceAll(s, c, rep) == (if s[0] == c then rep else [s[0]]) + ReplaceAll(s[1..], c, rep)
  {
  }

  /** Replacement works piece by piece. */
  lemma {:induction false} ReplaceAllAppend(a: string, b: string, c: char, rep: string)
    ensures ReplaceAll(a + b, c, rep) == ReplaceAll(a, c, rep) + ReplaceAll(b, c, rep)
  {
    if a != [] {
      var ab := a + b;
      assert ab[0] == a[0] && ab[1..] == a[1..] + b;
      var h := if a[0] == c then rep else [a[0]];
      ReplaceAllCons(ab, c, rep);
      ReplaceAllCons(a, c, rep);
      ReplaceAllAppend(a[1..], b, c, rep);
      Base.AppendAssoc(h, ReplaceAll(a[1..], c, rep), ReplaceAll(b, c, rep));
    } else {
      assert a + b == b;
    }
  }
}
