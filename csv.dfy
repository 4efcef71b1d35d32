/**
 * `csvEscape` (public/app.js), quoting in the style of section 2 of RFC 4180, and a reference
 * reader for the text it produces.
 */
module Csv {
  import opened JsText
  import opened Values

  /** `v.includes(',') || v.includes('"') || v.includes('\n')`. */
  predicate NeedsQuoting(v: string)
  {
    ',' in v || '"' in v || '\n' in v
  }

  /** The quoting applied to one field's text. */
  function EscapeField(v: string): string
  {
    if NeedsQuoting(v) then "\"" + ReplaceAll(v, '"', "\"\"") + "\"" else v
  }

  /** A field that needs quoting comes out between two quotes; any other comes out as it is. */
  lemma EscapeFieldShape(v: string)
    ensures NeedsQuoting(v) ==> |EscapeField(v)| >= 2 && EscapeField(v)[0] == '"'
                                && EscapeField(v)[|EscapeField(v)| - 1] == '"'
    ensures !NeedsQuoting(v) ==> EscapeField(v) == v
  {
  }

  /** `csvEscape(v)`: `null` and `undefined` (both `Null` here) become `''`, anything else `String(v)`. */
  function CsvEscape(v: Value): (cell: string)
    ensures v.Null? ==> cell == ""
    ensures !v.Null? && !NeedsQuoting(ToStr(v)) ==> cell == ToStr(v)
    ensures !v.Null? && NeedsQuoting(ToStr(v)) ==> |cell| >= 2 && cell[0] == '"' && cell[|cell| - 1] == '"'
  {
    if v.Null? then "" else EscapeFieldShape(ToStr(v)); EscapeField(ToStr(v))
  }

  /** An absent value is an empty cell; a string is quoted as a field. */
  lemma CsvEscapeOf(v: Value)
    ensures v.Null? ==> CsvEscape(v) == ""
    ensures v.Str? ==> CsvEscape(v) == EscapeField(v.s)
  {
  }

  /** One record as written: the quoted fields separated by commas. */
  function EncodeRecord(fields: seq<string>): string
    requires |fields| >= 1
  {
    if |fields| == 1 then EscapeField(fields[0])
    else EscapeField(fields[0]) + [','] + EncodeRecord(fields[1..])
  }

  /** Joining the quoted cells with `','` is writing the record. */
  lemma {:induction false} JoinEscaped(cells: seq<string>, fields: seq<string>)
    requires |cells| == |fields| >= 1
    requires forall i :: 0 <= i < |fields| ==> cells[i] == EscapeField(fields[i])
    ensures Join(cells, ',') == EncodeRecord(fields)
    decreases |fields|
  {
    if |fields| > 1 {
      JoinEscaped(cells[1..], fields[1..]);
    }
  }

  // A reference reader. Fields are separated by ',' and records by '\n'; a field that starts with
  // '"' runs to the next '"' not followed by another '"', and '""' inside it stands for '"'.

  /** An unquoted field: everything up to the next ',' or '\n'. Returns the field and what follows it. */
  function ReadUnquoted(t: string): (r: (string, string))
    ensures |r.1| <= |t|
  {
    if t == [] || t[0] == ',' || t[0] == '\n' then ([], t)
    else
      var (f, rest) := ReadUnquoted(t[1..]);
      ([t[0]] + f, rest)
  }

  /** The inside of a quoted field, after its opening quote; consumes the closing quote. */
  function ReadQuoted(t: string): (r: (string, string))
    ensures |r.1| <= |t|
  {
    if t == [] then ([], [])
    else if t[0] == '"' then
      if |t| >= 2 && t[1] == '"' then
        var (f, rest) := ReadQuoted(t[2..]);
        (['"'] + f, rest)
      else ([], t[1..])
    else
      var (f, rest) := ReadQuoted(t[1..]);
      ([t[0]] + f, rest)
  }

  function ReadField(t: string): (r: (string, string))
    ensures |r.1| <= |t|
  {
    if t != [] && t[0] == '"' then ReadQuoted(t[1..]) else ReadUnquoted(t)
  }

  /** The fields of one record, and the text after it. */
  function ReadRecord(t: string): (r: (seq<string>, string))
    ensures |r.0| >= 1 && |r.1| <= |t|
    decreases |t|
  {
    var (f, rest) := ReadField(t);
    if rest != [] && rest[0] == ',' then
      var (fs, rest') := ReadRecord(rest[1..]);
      ([f] + fs, rest')
    else ([f], rest)
  }

  /** The records of a whole file. */
  function ReadCsv(t: string): (records: seq<seq<string>>)
    ensures |records| >= 1
    decreases |t|
  {
    var (fields, rest) := ReadRecord(t);
    if rest != [] && rest[0] == '\n' then [fields] + ReadCsv(rest[1..]) else [fields]
  }

  predicate EndsField(tail: string)
  {
    tail == [] || tail[0] == ',' || tail[0] == '\n'
  }

  lemma {:induction false} ReadUnquotedRoundTrip(s: string, tail: string)
    requires ',' !in s && '\n' !in s && EndsField(tail)
    ensures ReadUnquoted(s + tail) == (s, tail)
  {
    if s == [] {
      assert s + tail == tail;
    } else {
      ReadUnquotedRoundTrip(s[1..], tail);
      assert (s + tail)[0] == s[0] && (s + tail)[1..] == s[1..] + tail;
      assert [s[0]] + s[1..] == s;
    }
  }

  lemma {:induction false} ReadQuotedRoundTrip(s: string, tail: string)
    requires tail == [] || tail[0] != '"'
    ensures ReadQuoted(ReplaceAll(s, '"', "\"\"") + "\"" + tail) == (s, tail)
  {
    if s == [] {
      var t := "\"" + tail;
      assert t[1..] == tail;
    } else {
      var c, rest := s[0], s[1..];
      var head := if c == '"' then "\"\"" else [c];
      var body := ReplaceAll(rest, '"', "\"\"");
      var t' := body + "\"" + tail;
      ReadQuotedRoundTrip(rest, tail);
      ReadQuotedCons(c, t');
      ReplaceAllCons(s, '"', "\"\"");
      assert ReplaceAll(s, '"', "\"\"") + "\"" + tail == head + t';
      assert s == [c] + rest;
    }
  }

  /** Reading one quoted character: `""` stands for `"`, any other character for itself. */
  lemma ReadQuotedCons(c: char, t: string)
    ensures var head := if c == '"' then "\"\"" else [c];
      ReadQuoted(head + t) == ([c] + ReadQuoted(t).0, ReadQuoted(t).1)
  {
    var head := if c == '"' then "\"\"" else [c];
    assert (head + t)[|head|..] == t;
  }

  /** Reading a written field back gives the original text and stops at the delimiter after it. */
  lemma FieldRoundTrip(s: string, tail: string)
    requires EndsField(tail)
    ensures ReadField(EscapeField(s) + tail) == (s, tail)
  {
    if NeedsQuoting(s) {
      QuotedFieldRoundTrip(s, tail);
    } else {
      PlainFieldRoundTrip(s, tail);
    }
  }

  lemma QuotedFieldRoundTrip(s: string, tail: string)
    requires NeedsQuoting(s) && EndsField(tail)
    ensures ReadField(EscapeField(s) + tail) == (s, tail)
  {
    var body := ReplaceAll(s, '"', "\"\"");
    var t := EscapeField(s) + tail;
    assert t == "\"" + (body + "\"" + tail);
    assert t[1..] == body + "\"" + tail;
    ReadQuotedRoundTrip(s, tail);
  }

  lemma PlainFieldRoundTrip(s: string, tail: string)
    requires !NeedsQuoting(s) && EndsField(tail)
    ensures ReadField(EscapeField(s) + tail) == (s, tail)
  {
    ReadUnquotedRoundTrip(s, tail);
    if s != [] {
      assert (s + tail)[0] == s[0];
    }
  }

  /** Reading a written record back gives its fields. */
  lemma {:induction false} RecordRoundTrip(fields: seq<string>, tail: string)
    requires |fields| >= 1
    requires tail == [] || tail[0] == '\n'
    ensures ReadRecord(EncodeRecord(fields) + tail) == (fields, tail)
    decreases |fields|
  {
    if |fields| == 1 {
      FieldRoundTrip(fields[0], tail);
      assert fields == [fields[0]];
    } else {
      var rest := EncodeRecord(fields[1..]) + tail;
      assert EncodeRecord(fields) + tail == EscapeField(fields[0]) + ([','] + rest);
      FieldRoundTrip(fields[0], [','] + rest);
      RecordRoundTrip(fields[1..], tail);
      ReadRecordCons(EscapeField(fields[0]), rest);
      assert fields == [fields[0]] + fields[1..];
    }
  }

  /** A field followed by a comma: the record goes on with the rest. */
  lemma ReadRecordCons(cell: string, rest: string)
    requires ReadField(cell + ([','] + rest)).1 == [','] + rest
    ensures ReadRecord(cell + ([','] + rest)) ==
      ([ReadField(cell + ([','] + rest)).0] + ReadRecord(rest).0, ReadRecord(rest).1)
  {
    assert ([','] + rest)[1..] == rest;
  }

  /** A record followed by a newline: the file goes on with the rest. */
  lemma ReadCsvCons(line: string, rest: string)
    requires ReadRecord(line + (['\n'] + rest)).1 == ['\n'] + rest
    ensures ReadCsv(line + (['\n'] + rest)) == [ReadRecord(line + (['\n'] + rest)).0] + ReadCsv(rest)
  {
    assert (['\n'] + rest)[1..] == rest;
  }

  /** Reading the lines of written records, joined by newlines, gives the records back. */
  lemma {:induction false} CsvRoundTrip(lines: seq<string>, records: seq<seq<string>>)
    requires |lines| == |records| >= 1
    requires forall i :: 0 <= i < |records| ==> |records[i]| >= 1 && lines[i] == EncodeRecord(records[i])
    ensures ReadCsv(Join(lines, '\n')) == records
    decreases |records|
  {
    if |records| == 1 {
      RecordRoundTrip(records[0], []);
      assert Join(lines, '\n') + [] == EncodeRecord(records[0]);
    } else {
      var rest := Join(lines[1..], '\n');
      assert Join(lines, '\n') == EncodeRecord(records[0]) + (['\n'] + rest);
      RecordRoundTrip(records[0], ['\n'] + rest);
      ReadCsvCons(EncodeRecord(records[0]), rest);
      CsvRoundTrip(lines[1..], records[1..]);
      assert records == [records[0]] + records[1..];
    }
  }
}
