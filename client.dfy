/** The client's domain-list parsing, WHOIS status label and CSV export (public/app.js). */
module Client {
  import opened Base
  import opened JsText
  import opened Values
  import opened Network
  import opened Probe
  import opened Whois
  import opened Csv

  /**
   * `raw.split(/\r?\n|,/)`: pieces between line breaks (`\n` or `\r\n`) and commas, empty ones
   * kept. Text without a line feed or comma is one piece (`SplitInputPiece`); how a text splits
   * around one separator is `SplitInputAt`.
   */
  function SplitInput(s: string): (parts: seq<string>)
    ensures |parts| >= 1
    ensures forall i :: 0 <= i < |parts| ==> '\n' !in parts[i] && ',' !in parts[i]
    decreases |s|
  {
    if s == [] then [""]
    else if |s| >= 2 && s[0] == '\r' && s[1] == '\n' then [""] + SplitInput(s[2..])
    else if s[0] == '\n' || s[0] == ',' then [""] + SplitInput(s[1..])
    else
      var rest := SplitInput(s[1..]);
      [[s[0]] + rest[0]] + rest[1..]
  }

  /** Text without a line feed or comma is a single piece. */
  lemma {:induction false} SplitInputPiece(s: string)
    requires '\n' !in s && ',' !in s
    ensures SplitInput(s) == [s]
    decreases |s|
  {
    if s != [] {
      SplitInputPiece(s[1..]);
      assert [s[0]] + s[1..] == s;
    }
  }

  /** The separators of the splitter: a comma, `\r\n`, or a line feed not preceded by `\r`. */
  predicate SeparatorAfter(a: string, sep: string)
  {
    sep == [','] || sep == ['\r', '\n'] || (sep == ['\n'] && (a == [] || a[|a| - 1] != '\r'))
  }

  /**
   * Splitting is local: a text with a separator in it splits into the pieces of the text before
   * the separator followed by the pieces of the text after it. With the single-piece case of
   * `SplitInput` this determines the split of every text.
   */
  lemma {:induction false} SplitInputAt(a: string, sep: string, b: string)
    requires SeparatorAfter(a, sep)
    ensures SplitInput(a + sep + b) == SplitInput(a) + SplitInput(b)
    decreases |a|
  {
    if a == [] {
      SplitAtStart(sep, b);
    } else if |a| >= 2 && a[0] == '\r' && a[1] == '\n' {
      SplitInputAt(a[2..], sep, b);
      SplitAfterCrLf(a, sep, b);
    } else if a[0] == '\n' || a[0] == ',' {
      SplitInputAt(a[1..], sep, b);
      SplitAfterBreak(a, sep, b);
    } else {
      SplitInputAt(a[1..], sep, b);
      SplitInsidePiece(a, sep, b);
    }
  }

  lemma SplitAtStart(sep: string, b: string)
    requires SeparatorAfter([], sep)
    ensures SplitInput([] + sep + b) == SplitInput([]) + SplitInput(b)
  {
    var s := [] + sep + b;
    assert s[|sep|..] == b;
  }

  /** The case where `a` starts with `\r\n`. */
  lemma SplitAfterCrLf(a: string, sep: string, b: string)
    requires |a| >= 2 && a[0] == '\r' && a[1] == '\n'
    requires SplitInput(a[2..] + sep + b) == SplitInput(a[2..]) + SplitInput(b)
    ensures SplitInput(a + sep + b) == SplitInput(a) + SplitInput(b)
  {
    var s := a + sep + b;
    assert s[0] == '\r' && s[1] == '\n';
    DropAppend(a, sep, b, 2);
  }

  /** The case where `a` starts with a line feed or a comma. */
  lemma SplitAfterBreak(a: string, sep: string, b: string)
    requires |a| >= 1 && (a[0] == '\n' || a[0] == ',')
    requires SplitInput(a[1..] + sep + b) == SplitInput(a[1..]) + SplitInput(b)
    ensures SplitInput(a + sep + b) == SplitInput(a) + SplitInput(b)
  {
    var s := a + sep + b;
    assert s[0] == a[0];
    DropAppend(a, sep, b, 1);
  }

  /** The case where `a` starts inside a piece. */
  lemma SplitInsidePiece(a: string, sep: string, b: string)
    requires SeparatorAfter(a, sep) && a != [] && a[0] != '\n' && a[0] != ','
    requires !(|a| >= 2 && a[0] == '\r' && a[1] == '\n')
    requires SplitInput(a[1..] + sep + b) == SplitInput(a[1..]) + SplitInput(b)
    ensures SplitInput(a + sep + b) == SplitInput(a) + SplitInput(b)
  {
    var s := a + sep + b;
    DropAppend(a, sep, b, 1);
    assert !(s[0] == '\r' && s[1] == '\n') by {
      if |a| == 1 {
        assert s[1] == sep[0];
      } else {
        assert s[1] == a[1];
      }
    }
    ExtendFirstAppend([a[0]], SplitInput(a[1..]), SplitInput(b));
  }

  /** `.filter(Boolean)` on strings: exactly the non-empty strings survive. */
  function NonEmpty(xs: seq<string>): (r: seq<string>)
    ensures forall i :: 0 <= i < |r| ==> r[i] != ""
    ensures forall x :: x in r <==> x in xs && x != ""
  {
    if xs == [] then []
    else
      var init := NonEmpty(xs[..|xs| - 1]);
      assert xs == xs[..|xs| - 1] + [xs[|xs| - 1]];
      if xs[|xs| - 1] == "" then init else init + [xs[|xs| - 1]]
  }

  /** Filtering goes element by element, so it distributes over concatenation. */
  lemma {:induction false} NonEmptyAppend(xs: seq<string>, ys: seq<string>)
    ensures NonEmpty(xs + ys) == NonEmpty(xs) + NonEmpty(ys)
    decreases |ys|
  {
    if ys == [] {
      assert xs + ys == xs;
    } else {
      var ys', y := ys[..|ys| - 1], ys[|ys| - 1];
      NonEmptyAppend(xs, ys');
      assert (xs + ys)[..|xs + ys| - 1] == xs + ys' && (xs + ys)[|xs + ys| - 1] == y;
    }
  }

  /** The domains the start button sends: split, trim (`.map(s => s.trim())`), drop the empty items. */
  function Items(raw: string): (items: seq<string>)
    ensures forall i :: 0 <= i < |items| ==> items[i] != "" && CleanItem(items[i])
  {
    var trimmed := Map(Trim, SplitInput(raw));
    TrimmedPiecesClean(raw);
    assert forall i :: 0 <= i < |trimmed| ==> CleanItem(trimmed[i]);
    NonEmptyKeeps(trimmed, CleanItem);
    NonEmpty(trimmed)
  }

  /** Text without a line feed or comma gives its trimmed self, or nothing when that is empty. */
  lemma ItemsOfPiece(a: string)
    requires '\n' !in a && ',' !in a
    ensures Items(a) == if Trim(a) == "" then [] else [Trim(a)]
  {
    SplitInputPiece(a);
    assert Map(Trim, [a]) == [Trim(a)] by {
      MapSnoc(Trim, [], a);
    }
    NonEmptyAppend([], [Trim(a)]);
    assert [] + [Trim(a)] == [Trim(a)];
  }

  /**
   * The items of a text with a separator in it are the items before the separator followed by the
   * items after it: every typed domain is sent, in the order typed.
   */
  lemma ItemsAt(a: string, sep: string, b: string)
    requires SeparatorAfter(a, sep)
    ensures Items(a + sep + b) == Items(a) + Items(b)
  {
    SplitInputAt(a, sep, b);
    MapAppend(Trim, SplitInput(a), SplitInput(b));
    NonEmptyAppend(Map(Trim, SplitInput(a)), Map(Trim, SplitInput(b)));
  }

  /** An item as the server receives it: trimmed, with no line break and no comma. */
  predicate CleanItem(x: string)
  {
    Trim(x) == x && '\n' !in x && ',' !in x
  }

  /** Filtering keeps any property every piece has. */
  lemma {:induction false} NonEmptyKeeps(xs: seq<string>, p: string -> bool)
    requires forall i :: 0 <= i < |xs| ==> p(xs[i])
    ensures forall i :: 0 <= i < |NonEmpty(xs)| ==> p(NonEmpty(xs)[i])
  {
    if xs != [] {
      NonEmptyKeeps(xs[..|xs| - 1], p);
    }
  }

  /** Every trimmed piece is already trimmed and holds no line break and no comma. */
  lemma TrimmedPiecesClean(raw: string)
    ensures forall i :: 0 <= i < |Map(Trim, SplitInput(raw))| ==> CleanItem(Map(Trim, SplitInput(raw))[i])
  {
    var parts := SplitInput(raw);
    var trimmed := Map(Trim, parts);
    MapAt(Trim, parts);
    forall i | 0 <= i < |trimmed| ensures CleanItem(trimmed[i]) {
      TrimIdempotent(parts[i]);
    }
  }

  lemma {:induction false} NonEmptySubsequence(xs: seq<string>)
    ensures IsSubsequence(NonEmpty(xs), xs)
  {
    if xs != [] {
      var init, x := xs[..|xs| - 1], xs[|xs| - 1];
      NonEmptySubsequence(init);
      assert xs == init + [x];
      if x == "" {
        SubsequenceSkip(NonEmpty(init), init, x);
      } else {
        SubsequenceExtend(NonEmpty(init), init, x);
      }
    }
  }

  /** The items keep the order of the trimmed pieces they come from, and only empty pieces are dropped. */
  lemma ItemsInOrder(raw: string)
    ensures IsSubsequence(Items(raw), Map(Trim, SplitInput(raw)))
    ensures forall x :: x in Items(raw) <==> x in Map(Trim, SplitInput(raw)) && x != ""
  {
    NonEmptySubsequence(Map(Trim, SplitInput(raw)));
  }

  lemma {:induction false} NonEmptyAll(xs: seq<string>)
    requires forall i :: 0 <= i < |xs| ==> xs[i] != ""
    ensures NonEmpty(xs) == xs
  {
    if xs != [] {
      NonEmptyAll(xs[..|xs| - 1]);
      assert xs == xs[..|xs| - 1] + [xs[|xs| - 1]];
    }
  }

  /** With no `\r` and no comma, the splitter is a plain split on `\n`. */
  lemma {:induction false} SplitInputOnLines(s: string)
    requires '\r' !in s && ',' !in s
    ensures SplitInput(s) == Split(s, '\n')
    decreases |s|
  {
    if s != [] {
      SplitInputOnLines(s[1..]);
    }
  }

  /** A list typed one domain per line comes back exactly, in order. */
  lemma OneDomainPerLine(domains: seq<string>)
    requires |domains| >= 1
    requires forall i :: 0 <= i < |domains| ==>
      domains[i] != "" && Trim(domains[i]) == domains[i]
      && '\n' !in domains[i] && '\r' !in domains[i] && ',' !in domains[i]
    ensures Items(Join(domains, '\n')) == domains
  {
    var text := Join(domains, '\n');
    JoinNoChar(domains, '\n', '\r');
    JoinNoChar(domains, '\n', ',');
    SplitInputOnLines(text);
    SplitJoin(domains, '\n');
    MapFixed(Trim, domains);
    NonEmptyAll(domains);
  }

  /** Joining with a separator other than `c` adds no `c`. */
  lemma {:induction false} JoinNoChar(parts: seq<string>, sep: char, c: char)
    requires |parts| >= 1 && sep != c
    requires forall i :: 0 <= i < |parts| ==> c !in parts[i]
    ensures c !in Join(parts, sep)
    decreases |parts|
  {
    if |parts| > 1 {
      JoinNoChar(parts[1..], sep, c);
    }
  }

  const AvailableLabel := "Available"
  const RegisteredLabel := "Registered"
  const UnknownLabel := "Unknown"

  /** The `available` label of the WHOIS detail row, from the response's `available` and `error`. */
  function StatusLabel(available: Value, error: Value): (shown: string)
    ensures shown == AvailableLabel <==> available == Bool(true)
    ensures shown == UnknownLabel <==> !available.Bool? && Truthy(error)
    ensures shown == RegisteredLabel <==> available == Bool(false) || (!available.Bool? && !Truthy(error))
  {
    if available == Bool(true) then AvailableLabel
    else if available == Bool(false) then RegisteredLabel
    else if Truthy(error) then UnknownLabel
    else RegisteredLabel
  }

  /** A field of the `/whois` response as the client reads it: `null` stays `null`. */
  function BoolValue(b: Option<bool>): Value
  {
    if b.Some? then Bool(b.value) else Null
  }

  function StringValue(s: Option<string>): Value
  {
    if s.Some? then Str(s.value) else Null
  }

  /**
   * Against the server's lookup: "Available" exactly when the heuristic said available, "Unknown"
   * exactly when the lookup failed with a non-empty message, otherwise "Registered".
   */
  lemma LabelOfLookup(domain: string, net: Oracles, serialize: Value -> string)
    ensures var w := WhoisLookup(domain, net, serialize);
      var shown := StatusLabel(BoolValue(w.available), StringValue(w.error));
      && (shown == AvailableLabel <==> w.available == Some(true))
      && (shown == UnknownLabel <==> w.error.Some? && w.error.value != "")
      && (shown == RegisteredLabel <==> w.available == Some(false) || w.error == Some(""))
  {
  }

  /** The invalid-hostname answer is labelled "Unknown". */
  lemma InvalidHostnameLabel(domain: string, net: Oracles, serialize: Value -> string)
    requires !Hostname.ValidHostname(domain)
    ensures var w := WhoisLookup(domain, net, serialize);
      StatusLabel(BoolValue(w.available), StringValue(w.error)) == UnknownLabel
  {
    WhoisInvalidHostname(domain, net, serialize);
  }

  const CsvHeader: seq<string> := ["domain", "checked_url", "reachable", "status", "final_url"]

  /** `x || ''` for a field that is a string or `null`. */
  function OrEmpty(s: Option<string>): string
  {
    if s.Some? then s.value else ""
  }

  /** `r.status || (r.error || '')`: a status of 0 counts as missing. */
  function StatusCell(r: CheckResult): (cell: Value)
    ensures cell.Num? || cell.Str?
    ensures cell.Num? <==> r.status.Some? && r.status.value != 0
    ensures cell.Num? ==> r.status == Some(cell.n)
    ensures cell.Str? ==> cell.s == OrEmpty(r.error)
  {
    if r.status.Some? && r.status.value != 0 then Num(r.status.value)
    else if r.error.Some? && r.error.value != "" then Str(r.error.value)
    else Str("")
  }

  /** The cells of one exported row, as written. */
  function RowCells(r: CheckResult): (cells: seq<string>)
    ensures |cells| == 5
    ensures cells[2] == "yes" <==> r.reachable
    ensures cells[2] == "no" <==> !r.reachable
  {
    [CsvEscape(Str(r.domain)), CsvEscape(Str(OrEmpty(r.url))), if r.reachable then "yes" else "no",
     CsvEscape(StatusCell(r)), CsvEscape(Str(OrEmpty(r.finalUrl)))]
  }

  /** One exported row: `row.join(',')`. */
  function RowLine(r: CheckResult): string
  {
    Join(RowCells(r), ',')
  }

  /** `header.join(',')`. */
  function HeaderLine(): string
  {
    Join(CsvHeader, ',')
  }

  /** The lines of the exported file: the header, then one row per result. */
  function ExportLines(results: seq<CheckResult>): seq<string>
  {
    [HeaderLine()] + Map(RowLine, results)
  }

  /**
   * The body of the `for…of`: escape the five cells and join them with commas, which writes the
   * row's fields as one CSV record.
   */
  method BuildRow(r: CheckResult) returns (line: string)
    ensures line == RowLine(r)
    ensures line == EncodeRecord(RowFields(r))
  {
    var row := [CsvEscape(Str(r.domain)), CsvEscape(Str(OrEmpty(r.url))), if r.reachable then "yes" else "no",
                CsvEscape(StatusCell(r)), CsvEscape(Str(OrEmpty(r.finalUrl)))];
    line := Join(row, ',');
    RowEncoded(r);
  }

  /** The download handler: nothing when there are no results, otherwise the lines of the file. */
  method ExportCsv(lastResults: seq<CheckResult>) returns (rows: Option<seq<string>>)
    ensures lastResults == [] ==> rows == None
    ensures lastResults != [] ==> rows == Some(ExportLines(lastResults))
  {
    if |lastResults| == 0 {
      return None;
    }
    var header := HeaderLine();
    var body := [];
    for i := 0 to |lastResults|
      invariant body == Map(RowLine, lastResults[..i])
    {
      var line := BuildRow(lastResults[i]);
      MapPrefix(RowLine, lastResults, i);
      body := body + [line];
    }
    assert lastResults[..|lastResults|] == lastResults;
    var lines := [header] + body;
    rows := Some(lines);
  }

  /** What a reader sees in one row: domain, checked URL, yes/no, status or error, final URL. */
  function RowFields(r: CheckResult): seq<string>
  {
    [r.domain, OrEmpty(r.url), if r.reachable then "yes" else "no", ToStr(StatusCell(r)), OrEmpty(r.finalUrl)]
  }

  lemma RowEncoded(r: CheckResult)
    ensures RowLine(r) == EncodeRecord(RowFields(r))
  {
    RowCellsEscaped(r);
    JoinEscaped(RowCells(r), RowFields(r));
  }

  /** Every cell of a row is its field, quoted; `yes` and `no` need no quoting. */
  lemma RowCellsEscaped(r: CheckResult)
    ensures |RowCells(r)| == |RowFields(r)| == 5
    ensures forall i :: 0 <= i < 5 ==> RowCells(r)[i] == EscapeField(RowFields(r)[i])
  {
    var cells, fields := RowCells(r), RowFields(r);
    CsvEscapeOf(Str(r.domain));
    CsvEscapeOf(Str(OrEmpty(r.url)));
    CsvEscapeOf(Str(OrEmpty(r.finalUrl)));
    assert cells[0] == EscapeField(fields[0]);
    assert cells[1] == EscapeField(fields[1]);
    assert cells[2] == EscapeField(fields[2]) by {
      assert !NeedsQuoting("yes") && !NeedsQuoting("no");
    }
    assert cells[3] == EscapeField(fields[3]) by {
      var v := StatusCell(r);
      assert v.Num? || v.Str?;
      assert cells[3] == CsvEscape(v) == EscapeField(ToStr(v)) && fields[3] == ToStr(v);
    }
    assert cells[4] == EscapeField(fields[4]);
    forall i | 0 <= i < 5 ensures cells[i] == EscapeField(fields[i]) {
      if i == 0 {} else if i == 1 {} else if i == 2 {} else if i == 3 {} else {}
    }
  }

  lemma HeaderEncoded()
    ensures HeaderLine() == EncodeRecord(CsvHeader)
  {
    forall i | 0 <= i < |CsvHeader| ensures CsvHeader[i] == EscapeField(CsvHeader[i]) {
      assert !NeedsQuoting(CsvHeader[i]);
    }
    JoinEscaped(CsvHeader, CsvHeader);
  }

  /** The records a reader finds in the exported file. */
  function ExportRecords(results: seq<CheckResult>): seq<seq<string>>
  {
    [CsvHeader] + Map(RowFields, results)
  }

  /**
   * The header, then one row per result with five fields: the domain, the checked URL, `yes` or
   * `no` as the result is reachable, the status code when there is a non-zero one and otherwise
   * the error message, and the final URL.
   */
  lemma ExportRecordsShape(results: seq<CheckResult>)
    ensures var records := ExportRecords(results);
      && |records| == 1 + |results| && records[0] == CsvHeader
      && (forall i :: 0 <= i < |records| ==> |records[i]| == 5)
      && (forall i :: 0 <= i < |results| ==>
            && records[i + 1][0] == results[i].domain
            && records[i + 1][1] == OrEmpty(results[i].url)
            && records[i + 1][4] == OrEmpty(results[i].finalUrl)
            && (records[i + 1][2] == "yes" <==> results[i].reachable)
            && (records[i + 1][2] == "no" <==> !results[i].reachable)
            && records[i + 1][3] == ToStr(StatusCell(results[i])))
  {
    MapAt(RowFields, results);
  }

  /** Each row line is its result's fields, written as a record. */
  lemma RowsEncoded(results: seq<CheckResult>)
    ensures |Map(RowLine, results)| == |Map(RowFields, results)| == |results|
    ensures forall i :: 0 <= i < |results| ==>
      |Map(RowFields, results)[i]| >= 1 && Map(RowLine, results)[i] == EncodeRecord(Map(RowFields, results)[i])
  {
    MapAt(RowLine, results);
    MapAt(RowFields, results);
    forall i | 0 <= i < |results|
      ensures |Map(RowFields, results)[i]| >= 1 && Map(RowLine, results)[i] == EncodeRecord(Map(RowFields, results)[i])
    {
      RowEncoded(results[i]);
    }
  }

  /** A written header line followed by the row lines is the header record followed by the rows. */
  lemma LinesEncoded(header: seq<string>, headerLine: string, results: seq<CheckResult>)
    requires |header| >= 1 && headerLine == EncodeRecord(header)
    ensures var records, lines := [header] + Map(RowFields, results), [headerLine] + Map(RowLine, results);
      && |lines| == |records|
      && forall i :: 0 <= i < |records| ==> |records[i]| >= 1 && lines[i] == EncodeRecord(records[i])
  {
    var records, lines := [header] + Map(RowFields, results), [headerLine] + Map(RowLine, results);
    var rowLines, rowFields := Map(RowLine, results), Map(RowFields, results);
    RowsEncoded(results);
    forall i | 0 <= i < |records| ensures |records[i]| >= 1 && lines[i] == EncodeRecord(records[i]) {
      if i > 0 {
        assert records[i] == rowFields[i - 1] && lines[i] == rowLines[i - 1];
      }
    }
  }

  lemma ExportLinesEncoded(results: seq<CheckResult>)
    ensures |ExportLines(results)| == |ExportRecords(results)|
    ensures forall i :: 0 <= i < |ExportRecords(results)| ==>
      |ExportRecords(results)[i]| >= 1 && ExportLines(results)[i] == EncodeRecord(ExportRecords(results)[i])
  {
    HeaderEncoded();
    LinesEncoded(CsvHeader, HeaderLine(), results);
  }

  /**
   * The downloaded text reads back as the header plus exactly one five-field row per result, in
   * order: domain, checked URL, `yes` or `no`, the status code when there is a non-zero one and
   * otherwise the error message, and the final URL.
   */
  lemma ExportReadsBack(results: seq<CheckResult>)
    ensures ReadCsv(Join(ExportLines(results), '\n')) == ExportRecords(results)
  {
    ExportLinesEncoded(results);
    CsvRoundTrip(ExportLines(results), ExportRecords(results));
  }
}
