/** `generateCSV` of the backup download: a header line with the keys of the first row, then
    one line per row. Fields are quoted as in section 2 of RFC 4180, except that lines end in
    LF instead of CRLF and header keys are written as they are. A parser for that format is
    the partner: reading the text back gives the header and every cell's text. */
module Csv {
  import opened Text
  import opened Wrappers

  /** A cell value: a string, an (integral) number, or `null`/`undefined`. */
  datatype Value = Str(s: string) | Num(n: int) | Missing

  /** A row object: its keys in insertion order, each with its value. */
  type Row = seq<(string, Value)>

  /** `Object.keys(row)`. */
  function Keys(row: Row): (r: seq<string>)
    ensures |r| == |row|
    ensures forall i :: 0 <= i < |row| ==> r[i] == row[i].0
  {
    seq(|row|, i requires 0 <= i < |row| => row[i].0)
  }

  /** `row[key]`: the value stored under `key`, or `undefined` when the row has no such key. */
  function Lookup(row: Row, key: string): (v: Value)
    ensures v != Missing ==> exists i :: 0 <= i < |row| && row[i] == (key, v)
    ensures (forall i :: 0 <= i < |row| ==> row[i].0 != key) ==> v == Missing
    ensures forall i :: 0 <= i < |row| && row[i].0 == key && (forall j :: 0 <= j < i ==> row[j].0 != key) ==>
              v == row[i].1
  {
    if row == [] then Missing
    else if row[0].0 == key then row[0].1
    else Lookup(row[1..], key)
  }

  function DigitChar(d: nat): char
    requires d < 10
  {
    "0123456789"[d]
  }

  /** The number a string of decimal digits denotes, most significant first. */
  function DecimalValue(s: string): int
  {
    if s == [] then 0 else 10 * DecimalValue(s[..|s| - 1]) + (s[|s| - 1] as int - '0' as int)
  }

  /** Decimal digits of a natural number, most significant first, without leading zeros:
      the digits denote the number. */
  function NatText(n: nat): (r: string)
    ensures r != [] && forall i :: 0 <= i < |r| ==> IsDigit(r[i])
    ensures n > 0 ==> r[0] != '0'
    ensures DecimalValue(r) == n
  {
    if n < 10 then [DigitChar(n)] else NatText(n / 10) + [DigitChar(n % 10)]
  }

  /** `String(n)` for an integer. */
  function IntText(n: int): string
  {
    if n < 0 then "-" + NatText(-n) else NatText(n)
  }

  /** The text a value contributes once the row is joined: `value ?? ''`, then `String`. */
  function Shown(v: Value): string
  {
    match v
    case Str(s) => s
    case Num(n) => IntText(n)
    case Missing => ""
  }

  /** A field holding one of these characters must be quoted. */
  predicate Special(c: char) { c == ',' || c == '"' || c == '\n' }

  predicate NeedsQuotes(s: string)
  {
    exists i :: 0 <= i < |s| && Special(s[i])
  }

  /** `s.replace(/"/g, '""')`. */
  function Escape(s: string): (r: string)
    ensures |r| >= |s|
  {
    if s == [] then ""
    else (if s[0] == '"' then "\"\"" else [s[0]]) + Escape(s[1..])
  }

  /** How a cell is written: a string with a comma, quote or line feed is enclosed in quotes
      with each quote doubled; anything else is written as its text. */
  function Cell(v: Value): string
  {
    match v
    case Str(s) => if NeedsQuotes(s) then "\"" + Escape(s) + "\"" else s
    case _ => Shown(v)
  }

  /** The written form of a field whose text is `t`. */
  function Field(t: string): string
  {
    if NeedsQuotes(t) then "\"" + Escape(t) + "\"" else t
  }

  function Fields(ts: seq<string>): (r: seq<string>)
    ensures |r| == |ts|
  {
    seq(|ts|, i requires 0 <= i < |ts| => Field(ts[i]))
  }

  /** One line of fields. */
  function Line(ts: seq<string>): string
  {
    Join(Fields(ts), ",")
  }

  /** The cells of `row`, in the order of `headers`. */
  function RowLine(row: Row, headers: seq<string>): string
  {
    Join(seq(|headers|, j requires 0 <= j < |headers| => Cell(Lookup(row, headers[j]))), ",")
  }

  /** `generateCSV(data)`. */
  function GenerateCsv(data: seq<Row>): (r: string)
    ensures data == [] ==> r == ""
  {
    if data == [] then ""
    else
      var headers := Keys(data[0]);
      Join([Join(headers, ",")] + RowLines(data, headers), "\n")
  }

  /** The line of each row, in the order of `headers`. */
  function RowLines(data: seq<Row>, headers: seq<string>): (r: seq<string>)
    ensures |r| == |data|
    ensures forall i :: 0 <= i < |data| ==> r[i] == RowLine(data[i], headers)
  {
    seq(|data|, i requires 0 <= i < |data| => RowLine(data[i], headers))
  }

  /** The table a CSV text stands for: the header keys, then each row's cell texts. */
  function Table(data: seq<Row>): (t: seq<seq<string>>)
    requires data != []
    ensures |t| == |data| + 1
    ensures t[0] == Keys(data[0])
    ensures forall i :: 0 <= i < |data| ==> t[i + 1] == CellTexts(data[i], Keys(data[0]))
  {
    var headers := Keys(data[0]);
    [headers] + seq(|data|, i requires 0 <= i < |data| => CellTexts(data[i], headers))
  }

  /** The text of each of `row`'s values, in the order of `headers`. */
  function CellTexts(row: Row, headers: seq<string>): (r: seq<string>)
    ensures |r| == |headers|
  {
    seq(|headers|, j requires 0 <= j < |headers| => Shown(Lookup(row, headers[j])))
  }

  // ---------------------------------------------------------------- the parser

  /** The rest of a quoted field after its opening quote: `""` stands for one quote, and a
      lone quote ends the field. `None` when the closing quote is missing. */
  function ParseQuoted(s: string): (r: Option<(string, string)>)
    ensures r.Some? ==> |r.value.1| < |s|
  {
    if s == [] then None
    else if s[0] == '"' then
      if |s| >= 2 && s[1] == '"' then
        match ParseQuoted(s[2..])
        case None => None
        case Some((t, rest)) => Some(("\"" + t, rest))
      else Some(("", s[1..]))
    else
      match ParseQuoted(s[1..])
      case None => None
      case Some((t, rest)) => Some(([s[0]] + t, rest))
  }

  /** An unquoted field: everything up to the next comma or line feed. */
  function Unquoted(s: string): (r: (string, string))
    ensures r.0 + r.1 == s
    ensures r.1 == [] || r.1[0] == ',' || r.1[0] == '\n'
  {
    if s == [] || s[0] == ',' || s[0] == '\n' then ("", s)
    else
      var (t, rest) := Unquoted(s[1..]);
      ([s[0]] + t, rest)
  }

  /** One field and the text after it. */
  function ParseField(s: string): (r: Option<(string, string)>)
    ensures r.Some? ==> |r.value.1| <= |s|
  {
    if s != [] && s[0] == '"' then ParseQuoted(s[1..]) else Some(Unquoted(s))
  }

  /** One record: its fields, and the text after its line feed (`None` at the end of the input). */
  function ParseRecord(s: string): (r: Option<(seq<string>, Option<string>)>)
    ensures r.Some? && r.value.1.Some? ==> |r.value.1.value| < |s|
    decreases |s|
  {
    match ParseField(s)
    case None => None
    case Some((f, rest)) =>
      if rest == [] then Some(([f], None))
      else if rest[0] == ',' then
        match ParseRecord(rest[1..])
        case None => None
        case Some((fs, next)) => Some(([f] + fs, next))
      else if rest[0] == '\n' then Some(([f], Some(rest[1..])))
      else None
  }

  /** Every record of a CSV text. */
  function ParseCsv(s: string): Option<seq<seq<string>>>
    decreases |s|
  {
    match ParseRecord(s)
    case None => None
    case Some((fields, None)) => Some([fields])
    case Some((fields, Some(rest))) =>
      match ParseCsv(rest)
      case None => None
      case Some(records) => Some([fields] + records)
  }

  // ---------------------------------------------------------------- round trip

  /** What may follow a field: nothing, a comma or a line feed. */
  predicate FieldEnd(tail: string)
  {
    tail == [] || tail[0] == ',' || tail[0] == '\n'
  }

  /** An escaped text followed by the closing quote reads back as the text. */
  lemma {:induction false} ParseEscaped(t: string, tail: string)
    requires tail == [] || tail[0] != '"'
    ensures ParseQuoted(Escape(t) + "\"" + tail) == Some((t, tail))
  {
    hide *;
    if t == [] {
      EscapeEmpty();
      assert Escape(t) + "\"" + tail == "\"" + tail;
      ParseQuotedEnd(tail);
    } else {
      ParseEscaped(t[1..], tail);
      var r := Escape(t[1..]) + "\"" + tail;
      EscapeStep(t);
      if t[0] == '"' {
        assert Escape(t) + "\"" + tail == "\"\"" + r;
        ParseQuotedDouble(r);
        assert "\"" + t[1..] == t;
      } else {
        assert Escape(t) + "\"" + tail == [t[0]] + r;
        ParseQuotedChar(t[0], r);
        assert [t[0]] + t[1..] == t;
      }
    }
  }

  lemma EscapeEmpty()
    ensures Escape([]) == []
  {
  }

  lemma EscapeStep(t: string)
    requires t != []
    ensures Escape(t) == (if t[0] == '"' then "\"\"" else [t[0]]) + Escape(t[1..])
  {
  }

  lemma ParseQuotedEnd(tail: string)
    requires tail == [] || tail[0] != '"'
    ensures ParseQuoted("\"" + tail) == Some(("", tail))
  {
    assert ("\"" + tail)[1..] == tail;
  }

  lemma ParseQuotedDouble(r: string)
    ensures ParseQuoted("\"\"" + r) ==
              match ParseQuoted(r)
              case None => None
              case Some((t, rest)) => Some(("\"" + t, rest))
  {
    assert ("\"\"" + r)[2..] == r;
  }

  lemma ParseQuotedChar(c: char, r: string)
    requires c != '"'
    ensures ParseQuoted([c] + r) ==
              match ParseQuoted(r)
              case None => None
              case Some((t, rest)) => Some(([c] + t, rest))
  {
    assert ([c] + r)[1..] == r;
  }

  /** Text free of commas, quotes and line feeds is read up to the field's end. */
  lemma {:induction false} ParsePlain(t: string, tail: string)
    requires !NeedsQuotes(t) && FieldEnd(tail)
    ensures Unquoted(t + tail) == (t, tail)
  {
    hide *;
    if t == [] {
      assert t + tail == tail;
      UnquotedEnd(tail);
    } else {
      PlainTail(t);
      ParsePlain(t[1..], tail);
      var s := t + tail;
      assert s[0] == t[0] && s[1..] == t[1..] + tail;
      UnquotedStep(s);
      assert [t[0]] + t[1..] == t;
    }
  }

  lemma PlainTail(t: string)
    requires !NeedsQuotes(t) && t != []
    ensures t[0] != ',' && t[0] != '"' && t[0] != '\n'
    ensures !NeedsQuotes(t[1..])
  {
    assert !Special(t[0]);
    forall i | 0 <= i < |t[1..]| ensures !Special(t[1..][i]) {
      assert t[1..][i] == t[i + 1];
    }
  }

  lemma UnquotedEnd(s: string)
    requires FieldEnd(s)
    ensures Unquoted(s) == ("", s)
  {
  }

  lemma UnquotedStep(s: string)
    requires s != [] && s[0] != ',' && s[0] != '\n'
    ensures Unquoted(s) == ([s[0]] + Unquoted(s[1..]).0, Unquoted(s[1..]).1)
  {
  }

  /** A written field reads back as its text, and the parser stops where the field ends. */
  lemma ParseWrittenField(t: string, tail: string)
    requires FieldEnd(tail)
    ensures ParseField(Field(t) + tail) == Some((t, tail))
  {
    hide *;
    FieldEndNoQuote(tail);
    FieldForms(t);
    if NeedsQuotes(t) {
      var s := Field(t) + tail;
      assert s[0] == '"' && s[1..] == Escape(t) + "\"" + tail;
      ParseFieldForms(s);
      ParseEscaped(t, tail);
    } else {
      ParsePlain(t, tail);
      if t != [] {
        PlainTail(t);
      }
      ParseFieldForms(t + tail);
    }
  }

  lemma FieldEndNoQuote(tail: string)
    requires FieldEnd(tail)
    ensures tail == [] || tail[0] != '"'
  {
  }

  lemma FieldForms(t: string)
    ensures NeedsQuotes(t) ==> Field(t) == "\"" + Escape(t) + "\""
    ensures !NeedsQuotes(t) ==> Field(t) == t
  {
  }

  lemma ParseFieldForms(s: string)
    ensures s != [] && s[0] == '"' ==> ParseField(s) == ParseQuoted(s[1..])
    ensures (s == [] || s[0] != '"') ==> ParseField(s) == Some(Unquoted(s))
  {
  }

  lemma FieldsTail(ts: seq<string>)
    requires |ts| > 1
    ensures Fields(ts)[1..] == Fields(ts[1..])
  {
  }

  /** A line of several fields reads its first field, then the rest of the line. */
  lemma ParseLineStep(ts: seq<string>, tail: string)
    requires |ts| > 1
    ensures ParseRecord(Line(ts) + tail) ==
              match ParseRecord(Line(ts[1..]) + tail)
              case None => None
              case Some((fs, next)) => Some(([ts[0]] + fs, next))
  {
    var after := "," + Line(ts[1..]) + tail;
    FieldsTail(ts);
    assert Line(ts) + tail == Field(ts[0]) + after;
    ParseWrittenField(ts[0], after);
    assert after[1..] == Line(ts[1..]) + tail;
  }

  lemma ParseSingleLine(ts: seq<string>, tail: string)
    requires |ts| == 1 && (tail == [] || tail[0] == '\n')
    ensures ParseRecord(Line(ts) + tail) == Some((ts, if tail == [] then None else Some(tail[1..])))
  {
    assert Line(ts) == Field(ts[0]);
    ParseWrittenField(ts[0], tail);
    assert [ts[0]] == ts;
  }

  /** A written line followed by the end of input or a line feed reads back as its fields. */
  lemma {:induction false} ParseLine(ts: seq<string>, tail: string)
    requires |ts| >= 1 && (tail == [] || tail[0] == '\n')
    ensures ParseRecord(Line(ts) + tail) == Some((ts, if tail == [] then None else Some(tail[1..])))
    decreases |ts|
  {
    hide *;
    if |ts| == 1 {
      ParseSingleLine(ts, tail);
    } else {
      ParseLineStep(ts, tail);
      ParseLine(ts[1..], tail);
      assert [ts[0]] + ts[1..] == ts;
    }
  }

  function Lines(rows: seq<seq<string>>): (r: seq<string>)
    ensures |r| == |rows|
    ensures forall i :: 0 <= i < |rows| ==> r[i] == Line(rows[i])
  {
    seq(|rows|, i requires 0 <= i < |rows| => Line(rows[i]))
  }

  /** Written lines joined by line feeds read back as the records, in order. */
  lemma {:induction false} ParseLines(rows: seq<seq<string>>)
    requires |rows| >= 1 && forall i :: 0 <= i < |rows| ==> |rows[i]| >= 1
    ensures ParseCsv(Join(Lines(rows), "\n")) == Some(rows)
    decreases |rows|
  {
    if |rows| == 1 {
      assert Join(Lines(rows), "\n") == Line(rows[0]) + "";
      ParseLine(rows[0], "");
      assert [rows[0]] == rows;
    } else {
      assert Lines(rows)[1..] == Lines(rows[1..]);
      var rest := Join(Lines(rows[1..]), "\n");
      assert Join(Lines(rows), "\n") == Line(rows[0]) + ("\n" + rest);
      ParseLine(rows[0], "\n" + rest);
      assert ("\n" + rest)[1..] == rest;
      ParseLines(rows[1..]);
      assert [rows[0]] + rows[1..] == rows;
    }
  }

  /** Numbers are never quoted: their text has no comma, quote or line feed. */
  lemma IntTextPlain(n: int)
    ensures !NeedsQuotes(IntText(n))
  {
    var t := IntText(n);
    if n < 0 {
      forall i | 0 <= i < |t| ensures !Special(t[i]) {
        if i > 0 {
          assert t[i] == NatText(-n)[i - 1];
        }
      }
    } else {
      forall i | 0 <= i < |t| ensures !Special(t[i]) {
        assert IsDigit(NatText(n)[i]);
      }
    }
  }

  /** Each cell is written as the field of the value's text. */
  lemma CellIsField(v: Value)
    ensures Cell(v) == Field(Shown(v))
  {
    if v.Num? {
      IntTextPlain(v.n);
    }
  }

  /** A row's line is the written line of its cell texts. */
  lemma RowLineIsLine(row: Row, headers: seq<string>)
    ensures RowLine(row, headers) == Line(CellTexts(row, headers))
  {
    var cells := seq(|headers|, j requires 0 <= j < |headers| => Cell(Lookup(row, headers[j])));
    forall j | 0 <= j < |headers| ensures cells[j] == Fields(CellTexts(row, headers))[j] {
      CellIsField(Lookup(row, headers[j]));
    }
    assert cells == Fields(CellTexts(row, headers));
  }

  /** Header keys with no comma, quote or line feed. */
  predicate PlainKeys(headers: seq<string>)
  {
    forall j :: 0 <= j < |headers| ==> !NeedsQuotes(headers[j])
  }

  /** The text generated for `data` is the written lines of its table. */
  lemma GenerateIsLines(data: seq<Row>)
    requires data != [] && PlainKeys(Keys(data[0]))
    ensures GenerateCsv(data) == Join(Lines(Table(data)), "\n")
  {
    hide *;
    var headers := Keys(data[0]);
    var t := Table(data);
    var lines := [Join(headers, ",")] + RowLines(data, headers);
    PlainLine(headers);
    forall i | 0 <= i < |t| ensures lines[i] == Lines(t)[i] {
      if i > 0 {
        RowLineIsLine(data[i - 1], headers);
      }
    }
    assert lines == Lines(t);
    GenerateForm(data);
  }

  lemma GenerateForm(data: seq<Row>)
    requires data != []
    ensures GenerateCsv(data) == Join([Join(Keys(data[0]), ",")] + RowLines(data, Keys(data[0])), "\n")
  {
    hide Join, RowLines, Keys;
  }

  /** Plain header keys are written as they are. */
  lemma PlainLine(headers: seq<string>)
    requires PlainKeys(headers)
    ensures Line(headers) == Join(headers, ",")
  {
    assert Fields(headers) == headers;
  }

  /** Round trip: reading back a generated CSV gives the header keys of the first row and,
      for every row, the text of its value under each key (empty when it has none), as long
      as there is at least one key and no key holds a comma, quote or line feed. */
  lemma GenerateParses(data: seq<Row>)
    requires data != [] && |data[0]| >= 1 && PlainKeys(Keys(data[0]))
    ensures ParseCsv(GenerateCsv(data)) == Some(Table(data))
  {
    GenerateIsLines(data);
    ParseLines(Table(data));
  }

  /** A string cell starts with a quote exactly when it has to be quoted, and unescaping the
      quoted form gives the string back. */
  lemma CellQuoting(s: string)
    ensures NeedsQuotes(s) ==> Cell(Str(s)) == "\"" + Escape(s) + "\"" && ParseField(Cell(Str(s))) == Some((s, ""))
    ensures !NeedsQuotes(s) ==> Cell(Str(s)) == s
  {
    if NeedsQuotes(s) {
      ParseWrittenField(s, "");
      assert Cell(Str(s)) + "" == Cell(Str(s));
    }
  }
}
