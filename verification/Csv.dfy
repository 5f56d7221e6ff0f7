/**
  The CSV export, and a reader for it after section 2 of RFC 4180 with LF record breaks.
 */
module Csv {
  import opened Platform
  import opened Text

  // ---- Data ----

  /** Property values as the serializer tells them apart; `Raw` is anything it prints as is. */
  datatype Value =
    | Missing
    | Date(iso: string)
    | Strings(items: seq<string>)
    | Str(text: string)
    | Raw(shown: string)
    | Nested(fields: seq<(string, Value)>)

  type Record = seq<(string, Value)>

  // ---- Flattening ----

  /** Assigning a property: an existing one keeps its place. */
  function Assign(r: Record, key: string, value: Value): Record {
    if r == [] then [(key, value)]
    else if r[0].0 == key then [(key, value)] + r[1..]
    else [r[0]] + Assign(r[1..], key, value)
  }

  function AssignNested(r: Record, key: string, fields: Record): Record {
    if fields == [] then r
    else
      var n := |fields| - 1;
      Assign(AssignNested(r, key, fields[..n]), key + "_" + fields[n].0, fields[n].1)
  }

  function Flatten(item: Record): Record {
    if item == [] then []
    else
      var n := |item| - 1;
      var flat := Flatten(item[..n]);
      if item[n].1.Nested? then AssignNested(flat, item[n].0, item[n].1.fields)
      else Assign(flat, item[n].0, item[n].1)
  }

  method FlattenItem(item: Record) returns (flat: Record)
    ensures flat == Flatten(item)
  {
    flat := [];
    for i := 0 to |item|
      invariant flat == Flatten(item[..i])
    {
      assert item[..i + 1][..i] == item[..i];
      var (key, value) := item[i];
      if value.Nested? {
        var fields := value.fields;
        ghost var before := flat;
        for j := 0 to |fields|
          invariant flat == AssignNested(before, key, fields[..j])
        {
          assert fields[..j + 1][..j] == fields[..j];
          flat := Assign(flat, key + "_" + fields[j].0, fields[j].1);
        }
        assert fields[..|fields|] == fields;
      } else {
        flat := Assign(flat, key, value);
      }
    }
    assert item[..|item|] == item;
  }

  /** The value of a property, Missing if the record has none of that name. */
  function Get(r: Record, key: string): Value {
    if r == [] then Missing else if r[0].0 == key then r[0].1 else Get(r[1..], key)
  }

  predicate DistinctKeys(r: Record) {
    forall i, j :: 0 <= i < j < |r| ==> r[i].0 != r[j].0
  }

  predicate HasKey(r: Record, key: string) {
    exists i :: 0 <= i < |r| && r[i].0 == key
  }

  /** The properties of an item with nested objects spelled out, in order, repetitions kept. */
  function Expand(item: Record): Record {
    if item == [] then []
    else
      var n := |item| - 1;
      Expand(item[..n]) + if item[n].1.Nested? then Prefixed(item[n].0, item[n].1.fields) else [item[n]]
  }

  function Prefixed(key: string, fields: Record): Record {
    if fields == [] then []
    else
      var n := |fields| - 1;
      Prefixed(key, fields[..n]) + [(key + "_" + fields[n].0, fields[n].1)]
  }

  /** The value assigned last under a name. */
  function LastValue(r: Record, key: string): Value {
    if r == [] then Missing
    else if r[|r| - 1].0 == key then r[|r| - 1].1
    else LastValue(r[..|r| - 1], key)
  }

  lemma {:induction false} AssignGet(r: Record, key: string, value: Value, k: string)
    ensures Get(Assign(r, key, value), k) == if k == key then value else Get(r, k)
  {
    if r != [] && r[0].0 != key {
      AssignGet(r[1..], key, value, k);
      assert Assign(r, key, value)[1..] == Assign(r[1..], key, value);
    } else if r != [] {
      assert Assign(r, key, value)[1..] == r[1..];
    }
  }

  lemma {:induction false} AssignKeys(r: Record, key: string, value: Value, k: string)
    requires DistinctKeys(r)
    ensures HasKey(Assign(r, key, value), k) <==> k == key || HasKey(r, k)
    ensures DistinctKeys(Assign(r, key, value))
  {
    var s := Assign(r, key, value);
    if r == [] {
      assert s[0].0 == key;
    } else if r[0].0 == key {
      assert s[0].0 == key;
      assert forall i :: 0 < i < |r| ==> s[i] == r[i];
    } else {
      AssignKeys(r[1..], key, value, k);
      AssignKeys(r[1..], key, value, r[0].0);
      assert s == [r[0]] + Assign(r[1..], key, value);
      HasKeyCons(r);
      HasKeyCons(s);
    }
  }

  lemma HasKeyCons(r: Record)
    requires r != []
    ensures forall k :: HasKey(r, k) <==> r[0].0 == k || HasKey(r[1..], k)
  {
    forall k ensures HasKey(r, k) <==> r[0].0 == k || HasKey(r[1..], k) {
      if HasKey(r[1..], k) {
        var i :| 0 <= i < |r[1..]| && r[1..][i].0 == k;
        assert r[i + 1].0 == k;
      }
      if HasKey(r, k) && r[0].0 != k {
        var i :| 0 <= i < |r| && r[i].0 == k;
        assert r[1..][i - 1].0 == k;
      }
    }
  }

  /** `flat` holds each name of `all` once, with the value assigned to it last. */
  ghost predicate Collapses(flat: Record, all: Record) {
    && DistinctKeys(flat)
    && (forall k :: Get(flat, k) == LastValue(all, k))
    && (forall k :: HasKey(flat, k) <==> HasKey(all, k))
  }

  lemma AssignCollapses(flat: Record, all: Record, key: string, value: Value)
    requires Collapses(flat, all)
    ensures Collapses(Assign(flat, key, value), all + [(key, value)])
  {
    var more := all + [(key, value)];
    assert more[..|all|] == all;
    forall k ensures Get(Assign(flat, key, value), k) == LastValue(more, k) {
      AssignGet(flat, key, value, k);
    }
    forall k ensures HasKey(Assign(flat, key, value), k) <==> HasKey(more, k) {
      AssignKeys(flat, key, value, k);
      assert more[|all|].0 == key;
      if HasKey(all, k) {
        var i :| 0 <= i < |all| && all[i].0 == k;
        assert more[i].0 == k;
      }
    }
    AssignKeys(flat, key, value, key);
  }

  lemma {:induction false} NestedCollapses(flat: Record, all: Record, key: string, fields: Record)
    requires Collapses(flat, all)
    ensures Collapses(AssignNested(flat, key, fields), all + Prefixed(key, fields))
  {
    if fields == [] {
      assert all + [] == all;
    } else {
      var n := |fields| - 1;
      NestedCollapses(flat, all, key, fields[..n]);
      AssignCollapses(AssignNested(flat, key, fields[..n]), all + Prefixed(key, fields[..n]),
                      key + "_" + fields[n].0, fields[n].1);
      assert all + Prefixed(key, fields) ==
             all + Prefixed(key, fields[..n]) + [(key + "_" + fields[n].0, fields[n].1)];
    }
  }

  /** Flattening keeps every property, nested ones under joined names, each name once with its last value. */
  lemma {:induction false} FlattenCollapses(item: Record)
    ensures Collapses(Flatten(item), Expand(item))
  {
    if item != [] {
      var n := |item| - 1;
      FlattenCollapses(item[..n]);
      var (key, value) := item[n];
      if value.Nested? {
        NestedCollapses(Flatten(item[..n]), Expand(item[..n]), key, value.fields);
      } else {
        AssignCollapses(Flatten(item[..n]), Expand(item[..n]), key, value);
      }
    }
  }

  // ---- Writing ----

  /** Quotes doubled. */
  function Escape(s: string): string {
    if s == [] then [] else (if s[0] == '"' then ['"', '"'] else [s[0]]) + Escape(s[1..])
  }

  function Quote(s: string): string {
    ['"'] + Escape(s) + ['"']
  }

  function JoinItems(items: seq<string>): string {
    if items == [] then []
    else if |items| == 1 then items[0]
    else items[0] + "; " + JoinItems(items[1..])
  }

  /** One cell as written.  A nested object inside a nested object is printed by its default conversion. */
  function Cell(v: Value): string {
    match v
    case Missing => ""
    case Date(iso) => iso
    case Strings(items) => Quote(JoinItems(items))
    case Str(text) => Quote(text)
    case Raw(shown) => shown
    case Nested(_) => "[object Object]"
  }

  /** The text a reader should get from the cell. */
  function CellText(v: Value): string {
    match v
    case Missing => ""
    case Date(iso) => iso
    case Strings(items) => JoinItems(items)
    case Str(text) => text
    case Raw(shown) => shown
    case Nested(_) => "[object Object]"
  }

  function Headers(data: seq<Record>): seq<string>
    requires data != []
  {
    var first := Flatten(data[0]);
    seq(|first|, i requires 0 <= i < |first| => first[i].0)
  }

  function RowValues(headers: seq<string>, flat: Record): (values: seq<Value>)
    ensures |values| == |headers|
  {
    seq(|headers|, i requires 0 <= i < |headers| => Get(flat, headers[i]))
  }

  function RowLine(values: seq<Value>): string {
    Join(seq(|values|, i requires 0 <= i < |values| => Cell(values[i])), ',')
  }

  /** The lines of the file: the header line and one line per item. */
  function FileLines(data: seq<Record>): seq<string>
    requires data != []
  {
    var headers := Headers(data);
    [Join(headers, ',')] +
    seq(|data|, i requires 0 <= i < |data| => RowLine(RowValues(headers, Flatten(data[i]))))
  }

  function ToCsv(data: seq<Record>): string {
    if data == [] then "" else Join(FileLines(data), '\n')
  }

  // ---- Reading ----

  /** The rest of a quoted field after its opening quote: its text and what follows the closing quote. */
  function ReadQuoted(s: string): Option<(string, string)> {
    if s == [] then None
    else if s[0] != '"' then
      var r := ReadQuoted(s[1..]);
      if r.Some? then Some(([s[0]] + r.value.0, r.value.1)) else None
    else if |s| >= 2 && s[1] == '"' then
      var r := ReadQuoted(s[2..]);
      if r.Some? then Some((['"'] + r.value.0, r.value.1)) else None
    else Some(("", s[1..]))
  }

  /** An unquoted field runs to a comma, a line feed or the end and holds no quote. */
  function ReadPlain(s: string): Option<(string, string)> {
    if s == [] || s[0] == ',' || s[0] == '\n' then Some(("", s))
    else if s[0] == '"' then None
    else
      var r := ReadPlain(s[1..]);
      if r.Some? then Some(([s[0]] + r.value.0, r.value.1)) else None
  }

  function ReadField(s: string): Option<(string, string)> {
    if s != [] && s[0] == '"' then ReadQuoted(s[1..]) else ReadPlain(s)
  }

  lemma {:induction false} ReadQuotedShorter(s: string)
    ensures ReadQuoted(s).Some? ==> |ReadQuoted(s).value.1| < |s|
  {
    if s != [] {
      ReadQuotedShorter(s[1..]);
      if |s| >= 2 { ReadQuotedShorter(s[2..]); }
    }
  }

  lemma {:induction false} ReadPlainShorter(s: string)
    ensures ReadPlain(s).Some? ==> |ReadPlain(s).value.1| <= |s|
  {
    if s != [] {
      ReadPlainShorter(s[1..]);
    }
  }

  lemma ReadFieldShorter(s: string)
    ensures ReadField(s).Some? ==> |ReadField(s).value.1| <= |s|
  {
    if s != [] { ReadQuotedShorter(s[1..]); }
    ReadPlainShorter(s);
  }

  /** A record: fields separated by commas up to a line feed or the end. */
  function ReadRecord(s: string): Option<(seq<string>, string)>
    decreases |s|
  {
    ReadFieldShorter(s);
    var field := ReadField(s);
    if field.None? then None
    else
      var (text, rest) := field.value;
      if rest == [] || rest[0] == '\n' then Some(([text], rest))
      else if rest[0] == ',' then
        var more := ReadRecord(rest[1..]);
        if more.Some? then Some(([text] + more.value.0, more.value.1)) else None
      else None
  }

  lemma {:induction false} ReadRecordShorter(s: string)
    ensures ReadRecord(s).Some? ==> |ReadRecord(s).value.1| <= |s|
    decreases |s|
  {
    ReadFieldShorter(s);
    var field := ReadField(s);
    if field.Some? && field.value.1 != [] && field.value.1[0] == ',' {
      ReadRecordShorter(field.value.1[1..]);
    }
  }

  /** A file: records separated by line feeds. */
  function ReadFile(s: string): Option<seq<seq<string>>>
    decreases |s|
  {
    ReadRecordShorter(s);
    var record := ReadRecord(s);
    if record.None? then None
    else
      var (fields, rest) := record.value;
      if rest == [] then Some([fields])
      else
        var more := ReadFile(rest[1..]);
        if more.Some? then Some([fields] + more.value) else None
  }

  // ---- The reader inverts the writer ----

  /** The text after a field: nothing, or a separator. */
  predicate FieldEnd(s: string) {
    s == [] || s[0] == ',' || s[0] == '\n'
  }

  predicate Plain(s: string) {
    ',' !in s && '\n' !in s && '"' !in s
  }

  lemma {:induction false} ReadEscaped(s: string, rest: string)
    requires FieldEnd(rest)
    ensures ReadQuoted(Escape(s) + ['"'] + rest) == Some((s, rest))
  {
    var t := Escape(s) + ['"'] + rest;
    if s == [] {
      assert t[1..] == rest;
    } else {
      var u := Escape(s[1..]) + ['"'] + rest;
      ReadEscaped(s[1..], rest);
      assert [s[0]] + s[1..] == s;
      if s[0] == '"' {
        assert t == ['"', '"'] + u;
        assert t[2..] == u;
      } else {
        assert t == [s[0]] + u;
        assert t[1..] == u;
      }
    }
  }

  lemma {:induction false} ReadPlainText(s: string, rest: string)
    requires Plain(s) && FieldEnd(rest)
    ensures ReadPlain(s + rest) == Some((s, rest))
  {
    if s == [] {
      assert s + rest == rest;
    } else {
      ReadPlainText(s[1..], rest);
      assert (s + rest)[1..] == s[1..] + rest;
      assert [s[0]] + s[1..] == s;
    }
  }

  /** A cell that is printed without quotes must hold no special character. */
  predicate CleanCell(v: Value) {
    v.Str? || v.Strings? || Plain(CellText(v))
  }

  lemma ReadQuote(s: string, rest: string)
    requires FieldEnd(rest)
    ensures ReadField(Quote(s) + rest) == Some((s, rest))
  {
    ReadEscaped(s, rest);
    assert (Quote(s) + rest)[1..] == Escape(s) + ['"'] + rest;
  }

  lemma ReadBare(s: string, rest: string)
    requires Plain(s) && FieldEnd(rest)
    ensures ReadField(s + rest) == Some((s, rest))
  {
    ReadPlainText(s, rest);
    if s + rest != [] {
      assert (s + rest)[0] == if s == [] then rest[0] else s[0];
    }
  }

  /** `written` is a field the reader reads as `text`, whatever separator follows. */
  ghost predicate Writes(written: string, text: string) {
    forall rest :: FieldEnd(rest) ==> ReadField(written + rest) == Some((text, rest))
  }

  lemma CellWrites(v: Value)
    requires CleanCell(v)
    ensures Writes(Cell(v), CellText(v))
  {
    forall rest | FieldEnd(rest) ensures ReadField(Cell(v) + rest) == Some((CellText(v), rest)) {
      if v.Str? || v.Strings? {
        ReadQuote(CellText(v), rest);
      } else {
        ReadBare(CellText(v), rest);
      }
    }
  }

  lemma HeaderWrites(header: string)
    requires Plain(header)
    ensures Writes(header, header)
  {
    forall rest | FieldEnd(rest) ensures ReadField(header + rest) == Some((header, rest)) {
      ReadBare(header, rest);
    }
  }

  /** A line of at least one written field reads back as its texts. */
  lemma {:induction false} ReadLine(written: seq<string>, texts: seq<string>, rest: string)
    requires |written| == |texts| > 0
    requires forall i :: 0 <= i < |written| ==> Writes(written[i], texts[i])
    requires RecordEnd(rest)
    ensures ReadRecord(Join(written, ',') + rest) == Some((texts, rest))
  {
    var line := Join(written, ',') + rest;
    if |written| == 1 {
      assert Writes(written[0], texts[0]);
      assert texts == [texts[0]];
    } else {
      var tail := Join(written[1..], ',') + rest;
      assert line == written[0] + ([','] + tail);
      assert Writes(written[0], texts[0]);
      assert ([','] + tail)[1..] == tail;
      ReadLine(written[1..], texts[1..], rest);
      assert texts == [texts[0]] + texts[1..];
    }
  }

  predicate RecordEnd(s: string) {
    s == [] || s[0] == '\n'
  }

  /** `line` is a record the reader reads as `fields`, whatever line feed follows. */
  ghost predicate LineWrites(line: string, fields: seq<string>) {
    forall rest :: RecordEnd(rest) ==> ReadRecord(line + rest) == Some((fields, rest))
  }

  lemma {:induction false} ReadLines(lines: seq<string>, table: seq<seq<string>>)
    requires |lines| == |table| > 0
    requires forall i :: 0 <= i < |lines| ==> LineWrites(lines[i], table[i])
    ensures ReadFile(Join(lines, '\n')) == Some(table)
  {
    assert LineWrites(lines[0], table[0]);
    if |lines| == 1 {
      assert lines[0] + [] == lines[0];
      assert table == [table[0]];
    } else {
      var tail := Join(lines[1..], '\n');
      assert Join(lines, '\n') == lines[0] + (['\n'] + tail);
      assert RecordEnd(['\n'] + tail);
      assert (['\n'] + tail)[1..] == tail;
      ReadLines(lines[1..], table[1..]);
      assert table == [table[0]] + table[1..];
    }
  }

  // ---- The export as a table ----

  function RowTexts(values: seq<Value>): (texts: seq<string>)
    ensures |texts| == |values|
  {
    seq(|values|, i requires 0 <= i < |values| => CellText(values[i]))
  }

  /** The headers and the text of every cell. */
  function Table(data: seq<Record>): seq<seq<string>>
    requires data != []
  {
    var headers := Headers(data);
    [headers] + seq(|data|, i requires 0 <= i < |data| => RowTexts(RowValues(headers, Flatten(data[i]))))
  }

  /** Header names and unquoted cells hold no comma, quote or line feed. */
  ghost predicate Clean(data: seq<Record>)
    requires data != []
  {
    && (forall h :: h in Headers(data) ==> Plain(h))
    && (forall i, k :: 0 <= i < |data| && 0 <= k < |Headers(data)| ==> CleanCell(Get(Flatten(data[i]), Headers(data)[k])))
  }

  lemma HeaderLineReads(headers: seq<string>)
    requires headers != [] && forall h :: h in headers ==> Plain(h)
    ensures LineWrites(Join(headers, ','), headers)
  {
    forall i | 0 <= i < |headers| ensures Writes(headers[i], headers[i]) {
      HeaderWrites(headers[i]);
    }
    forall rest | RecordEnd(rest) ensures ReadRecord(Join(headers, ',') + rest) == Some((headers, rest)) {
      ReadLine(headers, headers, rest);
    }
  }

  lemma RowLineReads(values: seq<Value>)
    requires values != [] && forall i :: 0 <= i < |values| ==> CleanCell(values[i])
    ensures LineWrites(RowLine(values), RowTexts(values))
  {
    var written := seq(|values|, i requires 0 <= i < |values| => Cell(values[i]));
    forall i | 0 <= i < |values| ensures Writes(written[i], RowTexts(values)[i]) {
      CellWrites(values[i]);
    }
    forall rest | RecordEnd(rest) ensures ReadRecord(RowLine(values) + rest) == Some((RowTexts(values), rest)) {
      ReadLine(written, RowTexts(values), rest);
    }
  }

  /** Every record a reader finds has at least one field. */
  lemma RecordsNonEmpty(s: string)
    ensures ReadFile(s).Some? ==> |ReadFile(s).value| >= 1 && ReadFile(s).value[0] != []
  {
  }

  /** A clean export with at least one column reads back as its table. */
  lemma CleanExportReads(data: seq<Record>)
    requires data != [] && Headers(data) != [] && Clean(data)
    ensures ReadFile(ToCsv(data)) == Some(Table(data))
  {
    var headers := Headers(data);
    var lines, table := FileLines(data), Table(data);
    forall i | 0 <= i < |lines| ensures LineWrites(lines[i], table[i]) {
      if i == 0 {
        HeaderLineReads(headers);
      } else {
        RowLineReads(RowValues(headers, Flatten(data[i - 1])));
      }
    }
    ReadLines(lines, table);
  }

  // ---- Why unquoted text must be clean ----

  /** What a quoted field was read from. */
  lemma {:induction false} ReadQuotedExact(s: string)
    requires ReadQuoted(s).Some?
    ensures s == Escape(ReadQuoted(s).value.0) + ['"'] + ReadQuoted(s).value.1
  {
    var (text, rest) := ReadQuoted(s).value;
    if s[0] != '"' {
      ReadQuotedExact(s[1..]);
      assert text[1..] == ReadQuoted(s[1..]).value.0;
      assert s == [s[0]] + s[1..];
    } else if |s| >= 2 && s[1] == '"' {
      ReadQuotedExact(s[2..]);
      assert text[1..] == ReadQuoted(s[2..]).value.0;
      assert s == ['"', '"'] + s[2..];
    } else {
      assert s == ['"'] + s[1..];
    }
  }

  lemma {:induction false} ReadPlainExact(s: string)
    ensures ReadPlain(s).Some? ==>
              var (text, rest) := ReadPlain(s).value;
              Plain(text) && text + rest == s && FieldEnd(rest)
  {
    if s != [] && s[0] != ',' && s[0] != '\n' && s[0] != '"' {
      ReadPlainExact(s[1..]);
    }
  }

  /** The number of quotes a text starts with. */
  function LeadingQuotes(s: string): nat {
    if s != [] && s[0] == '"' then 1 + LeadingQuotes(s[1..]) else 0
  }

  /** Appending to a text that is all quotes counts on, to any other changes nothing. */
  lemma {:induction false} LeadingQuotesAppend(s: string, t: string)
    ensures LeadingQuotes(s) <= |s|
    ensures LeadingQuotes(s + t) == LeadingQuotes(s) + if LeadingQuotes(s) == |s| then LeadingQuotes(t) else 0
  {
    if s == [] {
      assert s + t == t;
    } else {
      assert (s + t)[1..] == s[1..] + t;
      LeadingQuotesAppend(s[1..], t);
    }
  }

  lemma {:induction false} LeadingQuotesEscape(s: string)
    ensures LeadingQuotes(Escape(s)) == 2 * LeadingQuotes(s)
    ensures LeadingQuotes(Escape(s)) == |Escape(s)| <==> LeadingQuotes(s) == |s|
  {
    if s != [] {
      LeadingQuotesEscape(s[1..]);
      LeadingQuotesAppend(s[1..], []);
      if s[0] == '"' {
        assert Escape(s)[1..] == ['"'] + Escape(s[1..]);
        assert Escape(s)[1..][1..] == Escape(s[1..]);
      }
    }
  }

  /** A text in quotes starts with more quotes than the bare text. */
  lemma MoreQuotes(s: string, rest: string, after: string)
    requires FieldEnd(rest)
    ensures LeadingQuotes(['"'] + (Escape(s) + after)) > LeadingQuotes(s + rest)
  {
    LeadingQuotesAppend(s, rest);
    LeadingQuotesEscape(s);
    LeadingQuotesAppend(Escape(s), after);
    assert (['"'] + (Escape(s) + after))[1..] == Escape(s) + after;
    assert LeadingQuotes(rest) == 0;
  }

  /** A text that starts with a quote is read as a quoted field, and never as itself. */
  lemma QuotedMisread(s: string, rest: string)
    requires s != [] && s[0] == '"' && FieldEnd(rest)
    ensures ReadField(s + rest).Some? ==> ReadField(s + rest).value.0 != s
  {
    var t := s + rest;
    assert t == ['"'] + t[1..];
    if ReadField(t).Some? {
      var (text, after) := ReadField(t).value;
      ReadQuotedExact(t[1..]);
      MoreQuotes(s, rest, ['"'] + after);
      assert t[1..] == Escape(text) + (['"'] + after);
    }
  }

  /** A text with a special character, written without quotes, is never read as itself. */
  lemma BareMisread(s: string, rest: string)
    requires !Plain(s) && FieldEnd(rest)
    ensures ReadField(s + rest).Some? ==> ReadField(s + rest).value.0 != s
  {
    if s != [] && s[0] == '"' {
      QuotedMisread(s, rest);
    } else {
      ReadPlainExact(s + rest);
      assert s != [] && (s + rest)[0] == s[0];
    }
  }

  /** A one-cell file written without quotes reads back exactly when the text is plain. */
  lemma BareTextExactly(s: string)
    ensures ReadFile(s) == Some([[s]]) <==> Plain(s)
  {
    assert s + [] == s;
    if Plain(s) {
      ReadBare(s, []);
    } else {
      BareMisread(s, []);
      assert ReadRecord(s).Some? ==> ReadRecord(s).value.0[0] == ReadField(s).value.0;
      assert ReadFile(s).Some? ==> ReadFile(s).value[0] == ReadRecord(s).value.0;
      assert [[s]][0][0] == s;
    }
  }

  /** The written form of a cell or header: read as its text, or bare and unclean. */
  ghost predicate Written(written: string, text: string) {
    Writes(written, text) || (written == text && !Plain(text))
  }

  lemma CellWritten(v: Value)
    ensures Written(Cell(v), CellText(v))
    ensures CleanCell(v) <==> !(Cell(v) == CellText(v) && !Plain(CellText(v)))
  {
    if CleanCell(v) {
      CellWrites(v);
    }
    if v.Str? || v.Strings? {
      EscapeLonger(CellText(v));
    }
  }

  lemma {:induction false} EscapeLonger(s: string)
    ensures |Escape(s)| >= |s|
  {
    if s != [] {
      EscapeLonger(s[1..]);
    }
  }

  lemma HeaderWritten(header: string)
    ensures Written(header, header)
  {
    if Plain(header) {
      HeaderWrites(header);
    }
  }

  /** The first field of a line that reads back as its texts was not bare and unclean. */
  lemma HeadReadsBack(written: string, texts: seq<string>, tail: string)
    requires texts != [] && Written(written, texts[0]) && FieldEnd(tail)
    requires ReadRecord(written + tail).Some? && ReadRecord(written + tail).value.0 == texts
    ensures Writes(written, texts[0])
    ensures tail != [] && tail[0] == ',' ==>
              ReadRecord(tail[1..]).Some? && ReadRecord(tail[1..]).value.0 == texts[1..]
  {
    hide ReadField;
    assert ReadField(written + tail).Some? && ReadField(written + tail).value.0 == texts[0];
    if !Writes(written, texts[0]) {
      BareMisread(texts[0], tail);
    }
  }

  /** No field of a line that reads back as its texts was bare and unclean. */
  lemma {:induction false} LineReadsBack(written: seq<string>, texts: seq<string>, rest: string)
    requires |written| == |texts| > 0 && RecordEnd(rest)
    requires forall i :: 0 <= i < |written| ==> Written(written[i], texts[i])
    requires ReadRecord(Join(written, ',') + rest).Some?
    requires ReadRecord(Join(written, ',') + rest).value.0 == texts
    ensures forall i :: 0 <= i < |written| ==> Writes(written[i], texts[i])
  {
    hide ReadRecord, Writes, Written;
    assert Written(written[0], texts[0]);
    if |written| == 1 {
      HeadReadsBack(written[0], texts, rest);
    } else {
      var more := Join(written[1..], ',') + rest;
      assert Join(written, ',') + rest == written[0] + ([','] + more);
      HeadReadsBack(written[0], texts, [','] + more);
      assert ([','] + more)[1..] == more;
      LineReadsBack(written[1..], texts[1..], rest);
      forall i | 0 <= i < |written| ensures Writes(written[i], texts[i]) {
        if i > 0 {
          assert Writes(written[1..][i - 1], texts[1..][i - 1]);
        }
      }
    }
  }

  /** The written fields of one line. */
  ghost predicate LineWritten(written: seq<string>, texts: seq<string>) {
    |written| == |texts| > 0 && forall k :: 0 <= k < |texts| ==> Written(written[k], texts[k])
  }

  /** The written fields of a table, line by line. */
  ghost predicate TableWritten(cells: seq<seq<string>>, table: seq<seq<string>>) {
    |cells| == |table| && forall i :: 0 <= i < |table| ==> LineWritten(cells[i], table[i])
  }

  function JoinLines(cells: seq<seq<string>>): seq<string> {
    seq(|cells|, i requires 0 <= i < |cells| => Join(cells[i], ','))
  }

  /** No field of a file that reads back as its table was bare and unclean. */
  lemma {:induction false} FileReadsBack(cells: seq<seq<string>>, table: seq<seq<string>>)
    requires TableWritten(cells, table) && table != []
    requires ReadFile(Join(JoinLines(cells), '\n')) == Some(table)
    ensures forall i, k :: 0 <= i < |table| && 0 <= k < |table[i]| ==> Writes(cells[i][k], table[i][k])
  {
    var lines := JoinLines(cells);
    var file := Join(lines, '\n');
    var tail := if |cells| == 1 then [] else ['\n'] + Join(lines[1..], '\n');
    assert file == lines[0] + tail;
    assert ReadFile(file).value[0] == ReadRecord(file).value.0;
    assert LineWritten(cells[0], table[0]);
    LineReadsBack(cells[0], table[0], tail);
    ReadLine(cells[0], table[0], tail);
    if |cells| > 1 {
      assert tail[1..] == Join(lines[1..], '\n');
      assert lines[1..] == JoinLines(cells[1..]);
      assert ReadFile(file).value[1..] == ReadFile(tail[1..]).value;
      FileReadsBack(cells[1..], table[1..]);
      forall i, k | 0 <= i < |table| && 0 <= k < |table[i]| ensures Writes(cells[i][k], table[i][k]) {
        if i > 0 {
          assert Writes(cells[1..][i - 1][k], table[1..][i - 1][k]);
        }
      }
    }
  }

  /** The fields of the export as written. */
  function Cells(data: seq<Record>): seq<seq<string>>
    requires data != []
  {
    var headers := Headers(data);
    [headers] + seq(|data|, i requires 0 <= i < |data| => WrittenRow(RowValues(headers, Flatten(data[i]))))
  }

  function WrittenRow(values: seq<Value>): (r: seq<string>)
    ensures |r| == |values|
  {
    seq(|values|, i requires 0 <= i < |values| => Cell(values[i]))
  }

  lemma ExportLines(data: seq<Record>)
    requires data != []
    ensures FileLines(data) == JoinLines(Cells(data))
  {
    var lines, cells := FileLines(data), Cells(data);
    forall i | 0 <= i < |lines| ensures lines[i] == Join(cells[i], ',') {
      if i > 0 {
        var values := RowValues(Headers(data), Flatten(data[i - 1]));
        assert cells[i] == WrittenRow(values) && lines[i] == RowLine(values);
      }
    }
  }

  lemma RowWritten(values: seq<Value>)
    requires values != []
    ensures LineWritten(WrittenRow(values), RowTexts(values))
  {
    hide Written;
    forall k | 0 <= k < |values| ensures Written(WrittenRow(values)[k], RowTexts(values)[k]) {
      CellWritten(values[k]);
    }
  }

  lemma HeadersWritten(headers: seq<string>)
    requires headers != []
    ensures LineWritten(headers, headers)
  {
    hide Written;
    forall k | 0 <= k < |headers| ensures Written(headers[k], headers[k]) {
      HeaderWritten(headers[k]);
    }
  }

  lemma ExportWritten(data: seq<Record>)
    requires data != [] && Headers(data) != []
    ensures TableWritten(Cells(data), Table(data))
  {
    hide LineWritten, Headers, Flatten, WrittenRow, RowTexts;
    var headers := Headers(data);
    var cells, table := Cells(data), Table(data);
    forall i | 0 <= i < |table| ensures LineWritten(cells[i], table[i]) {
      if i == 0 {
        HeadersWritten(headers);
      } else {
        RowWritten(RowValues(headers, Flatten(data[i - 1])));
      }
    }
  }

  /** A bare text is written as itself only if it is plain. */
  lemma WritesPlain(s: string)
    requires Writes(s, s)
    ensures Plain(s)
  {
    if !Plain(s) {
      assert FieldEnd([]);
      BareMisread(s, []);
    }
  }

  lemma CellWritesClean(v: Value)
    requires Writes(Cell(v), CellText(v))
    ensures CleanCell(v)
  {
    CellWritten(v);
    if Cell(v) == CellText(v) {
      WritesPlain(CellText(v));
    }
  }

  lemma ReadsBackIsClean(data: seq<Record>)
    requires data != [] && Headers(data) != []
    requires ReadFile(ToCsv(data)) == Some(Table(data))
    ensures Clean(data)
  {
    hide Headers, Flatten, Writes, CleanCell, Plain, Cell, CellText, ReadFile, TableWritten;
    var headers := Headers(data);
    var cells, table := Cells(data), Table(data);
    ExportLines(data);
    ExportWritten(data);
    FileReadsBack(cells, table);
    forall h | h in headers ensures Plain(h) {
      var k :| 0 <= k < |headers| && headers[k] == h;
      assert Writes(cells[0][k], table[0][k]);
      WritesPlain(h);
    }
    forall i, k | 0 <= i < |data| && 0 <= k < |headers| ensures CleanCell(Get(Flatten(data[i]), headers[k])) {
      assert Writes(cells[i + 1][k], table[i + 1][k]);
      CellWritesClean(Get(Flatten(data[i]), headers[k]));
    }
  }

  /**
    Reading an exported file gives back the headers and every cell's text if and
    only if the first item has a property and no header name and no cell that is
    written without quotes holds a comma, a quote or a line feed.
   */
  lemma ExportReadsExactly(data: seq<Record>)
    ensures data == [] ==> ToCsv(data) == ""
    ensures data != [] ==> (ReadFile(ToCsv(data)) == Some(Table(data)) <==> Headers(data) != [] && Clean(data))
  {
    if data == [] {
      assert ToCsv(data) == "";
    } else if Headers(data) == [] {
      RecordsNonEmpty(ToCsv(data));
      assert Table(data)[0] == [];
    } else {
      if Clean(data) {
        CleanExportReads(data);
      }
      if ReadFile(ToCsv(data)) == Some(Table(data)) {
        ReadsBackIsClean(data);
      }
    }
  }
}
