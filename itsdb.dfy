/** The [incr tsdb()] line format: escaping of cell values, encoding and
    decoding of rows, data specifiers, column defaults and `make_row`. */
module Itsdb {
  import opened Wrappers
  import opened PyStrings

  /** The character that separates the cells of a row. */
  const FieldDelimiter: char := '@'

  /** A column of a profile table, as a relations file declares it. */
  datatype Field = Field(name: string, dtype: string, key: bool, partial: bool, comment: Option<string>)

  /** A row of a table: a mapping of column names to cell text. */
  type Row = map<string, string>

  // ---------------------------------------------------------------------
  // Escaping

  /** The replacement `escape` makes for one character. */
  function EscapeChar(c: char): string {
    if c == '@' then "\\s"
    else if c == '\n' then "\\n"
    else if c == '\\' then "\\\\"
    else [c]
  }

  /** `escape(s)`: `@` becomes `\s`, a newline `\n`, a backslash `\\`. */
  function Escape(s: string): (r: string)
    ensures FieldDelimiter !in r && '\n' !in r
    ensures |r| >= |s|
  {
    if s == [] then [] else EscapeChar(s[0]) + Escape(s[1..])
  }

  /** `unescape(s)`: scanning left to right, each `\s`, `\n` and `\\` is
      replaced by the character it stands for; everything else is kept. */
  function Unescape(s: string): (r: string)
    ensures |r| <= |s|
  {
    if |s| >= 2 && s[0] == '\\' && (s[1] == 's' || s[1] == 'n' || s[1] == '\\') then
      [if s[1] == 's' then '@' else if s[1] == 'n' then '\n' else '\\'] + Unescape(s[2..])
    else if s == [] then []
    else [s[0]] + Unescape(s[1..])
  }

  lemma UnescapeEscapeChar(c: char, t: string)
    ensures Unescape(EscapeChar(c) + t) == [c] + Unescape(t)
  {
    var s := EscapeChar(c) + t;
    if c == '@' || c == '\n' || c == '\\' {
      assert s[2..] == t;
    } else {
      assert s[1..] == t;
    }
  }

  /** Unescaping undoes escaping, for every string. */
  lemma {:induction false} UnescapeEscape(s: string)
    ensures Unescape(Escape(s)) == s
  {
    if s != [] {
      UnescapeEscape(s[1..]);
      UnescapeEscapeChar(s[0], Escape(s[1..]));
      assert [s[0]] + s[1..] == s;
    }
  }

  /** Text without a backslash is left alone by `unescape`. */
  lemma {:induction false} UnescapePlain(s: string)
    requires '\\' !in s
    ensures Unescape(s) == s
  {
    if s != [] {
      UnescapePlain(s[1..]);
      assert [s[0]] + s[1..] == s;
    }
  }

  // ---------------------------------------------------------------------
  // Rows

  function EscapeAll(fields: seq<string>): (r: seq<string>)
    ensures |r| == |fields|
    ensures forall i :: 0 <= i < |r| ==> r[i] == Escape(fields[i])
  {
    seq(|fields|, i requires 0 <= i < |fields| => Escape(fields[i]))
  }

  function UnescapeAll(cells: seq<string>): (r: seq<string>)
    ensures |r| == |cells|
    ensures forall i :: 0 <= i < |r| ==> r[i] == Unescape(cells[i])
  {
    seq(|cells|, i requires 0 <= i < |cells| => Unescape(cells[i]))
  }

  /** `line.rstrip('\n')` */
  function RStripNewlines(s: string): (r: string)
    ensures |r| <= |s| && r == s[..|r|]
    ensures r == [] || r[|r| - 1] != '\n'
  {
    if s != [] && s[|s| - 1] == '\n' then RStripNewlines(s[..|s| - 1]) else s
  }

  /** `encode_row(fields)`: the escaped cells joined by the delimiter. */
  function EncodeRow(fields: seq<string>): (r: string)
    ensures '\n' !in r
  {
    JoinWithout(EscapeAll(fields), FieldDelimiter, '\n');
    Join(EscapeAll(fields), FieldDelimiter)
  }

  /** `decode_row(line)`: trailing newlines dropped, the line split at the
      delimiter and each cell unescaped. */
  function DecodeRow(line: string): (r: seq<string>)
    ensures |r| >= 1
  {
    UnescapeAll(Split(RStripNewlines(line), FieldDelimiter))
  }

  /** A joined text contains a character only if a part does. */
  lemma {:induction false} JoinWithout(parts: seq<string>, sep: char, c: char)
    requires c != sep
    requires forall i :: 0 <= i < |parts| ==> c !in parts[i]
    ensures c !in Join(parts, sep)
  {
    if |parts| > 1 {
      JoinWithout(parts[1..], sep, c);
    }
  }

  /** Decoding an encoded row gives back its cells, for any row with at
      least one cell (an empty row encodes as the empty line, which
      decodes as one empty cell). */
  lemma DecodeEncode(fields: seq<string>)
    requires |fields| >= 1
    ensures DecodeRow(EncodeRow(fields)) == fields
  {
    var esc := EscapeAll(fields);
    var line := EncodeRow(fields);
    assert RStripNewlines(line) == line;
    SplitJoin(esc, FieldDelimiter);
    forall i | 0 <= i < |fields|
      ensures DecodeRow(line)[i] == fields[i]
    {
      UnescapeEscape(fields[i]);
    }
  }

  // ---------------------------------------------------------------------
  // Data specifiers

  /** The position of the first `c` in `s`, or `|s|` when there is none. */
  function IndexOf(s: string, c: char): (i: nat)
    ensures i <= |s|
    ensures c !in s[..i]
    ensures i < |s| ==> s[i] == c
  {
    if s == [] then 0
    else if s[0] == c then 0
    else
      var j := IndexOf(s[1..], c);
      assert s[1..][..j] == s[1..j + 1];
      1 + j
  }

  function StripAll(parts: seq<string>): (r: seq<string>)
    ensures |r| == |parts|
    ensures forall i :: 0 <= i < |r| ==> r[i] == Strip(parts[i])
  {
    seq(|parts|, i requires 0 <= i < |parts| => Strip(parts[i]))
  }

  /** `get_data_specifier(s)`: the (stripped) table name before the first
      colon, if any text is there, and the (stripped) `@`-separated column
      names after it. The text after the colon must be non-empty and may
      hold no newline except a single final one; otherwise nothing
      matches and the result is `(None, None)`. */
  function GetDataSpecifier(s: string): (r: (Option<string>, Option<seq<string>>))
  {
    var i := IndexOf(s, ':');
    var table := if i > 0 then Some(Strip(s[..i])) else None;
    if i == |s| then (table, None)
    else
      var rest := s[i + 1..];
      var body := if rest != [] && rest[|rest| - 1] == '\n' then rest[..|rest| - 1] else rest;
      if body != [] && '\n' !in body then (table, Some(StripAll(Split(body, '@'))))
      else (None, None)
  }

  /** A specifier without a colon names only a table. */
  lemma SpecifierTableOnly(table: string)
    requires ':' !in table && table != []
    ensures GetDataSpecifier(table) == (Some(Strip(table)), None)
  {
    IndexOfAbsent(table, ':');
    assert table[..|table|] == table;
  }

  lemma {:induction false} IndexOfAbsent(s: string, c: char)
    requires c !in s
    ensures IndexOf(s, c) == |s|
  {
    if s != [] {
      IndexOfAbsent(s[1..], c);
    }
  }

  /** The first `c` is found after a prefix without one. */
  lemma {:induction false} IndexOfAfter(p: string, c: char, rest: string)
    requires c !in p
    ensures IndexOf(p + [c] + rest, c) == |p|
  {
    if p != [] {
      IndexOfAfter(p[1..], c, rest);
      assert (p + [c] + rest)[1..] == p[1..] + [c] + rest;
    }
  }

  /** `table:c1@c2@...` names the table (if any) and the columns. */
  lemma SpecifierWithColumns(table: string, cols: string)
    requires ':' !in table
    requires cols != [] && '\n' !in cols
    ensures GetDataSpecifier(table + ":" + cols)
      == (if table == [] then None else Some(Strip(table)), Some(StripAll(Split(cols, '@'))))
  {
    var s := table + ":" + cols;
    IndexOfAfter(table, ':', cols);
    assert s[..|table|] == table;
    assert s[|table| + 1..] == cols;
  }

  /** Stripped, non-empty column names without `@` or newlines come back
      from the specifier built from them. */
  lemma SpecifierRoundTrip(table: string, cols: seq<string>)
    requires ':' !in table
    requires |cols| >= 1
    requires forall k :: 0 <= k < |cols| ==> cols[k] != [] && Strip(cols[k]) == cols[k]
    requires forall k :: 0 <= k < |cols| ==> '@' !in cols[k] && '\n' !in cols[k]
    ensures GetDataSpecifier(table + ":" + Join(cols, '@'))
      == (if table == [] then None else Some(Strip(table)), Some(cols))
  {
    var text := Join(cols, '@');
    JoinWithout(cols, '@', '\n');
    JoinStartsWith(cols, '@');
    assert cols[0] != [];
    assert text != [];
    SpecifierWithColumns(table, text);
    SplitJoin(cols, '@');
    assert StripAll(cols) == cols;
  }

  lemma {:induction false} JoinStartsWith(parts: seq<string>, sep: char)
    requires |parts| >= 1
    ensures |Join(parts, sep)| >= |parts[0]| && Join(parts, sep)[..|parts[0]|] == parts[0]
  {
    if |parts| > 1 {
      assert Join(parts, sep) == parts[0] + [sep] + Join(parts[1..], sep);
    }
  }

  // ---------------------------------------------------------------------
  // Defaults and make_row

  /** Columns with a value of their own when absent from a row. */
  const CodedAttributes: map<string, string> :=
    map["i-wf" := "1", "i-difficulty" := "1", "polarity" := "-1"]

  /** `default_value(fieldname, datatype)` */
  function DefaultValue(fieldname: string, dtype: string): (r: string)
    ensures fieldname in CodedAttributes ==> r == CodedAttributes[fieldname]
    ensures fieldname !in CodedAttributes && dtype == ":integer" ==> r == "-1"
    ensures fieldname !in CodedAttributes && dtype != ":integer" ==> r == ""
  {
    if fieldname in CodedAttributes then CodedAttributes[fieldname]
    else if dtype == ":integer" then "-1"
    else ""
  }

  /** The cell `make_row` writes for one field. */
  function CellFor(row: Row, f: Field): string {
    if f.name in row then row[f.name] else DefaultValue(f.name, f.dtype)
  }

  /** `make_row(row, fields)`: one cell per field, encoded as a line. */
  function MakeRow(row: Row, fields: seq<Field>): string {
    EncodeRow(seq(|fields|, i requires 0 <= i < |fields| => CellFor(row, fields[i])))
  }

  /** The line `make_row` writes decodes to exactly one cell per field, in
      field order: the row's value when it has one and the column default
      otherwise. */
  lemma MakeRowCells(row: Row, fields: seq<Field>)
    requires |fields| >= 1
    ensures |DecodeRow(MakeRow(row, fields))| == |fields|
    ensures forall i :: 0 <= i < |fields| ==>
      DecodeRow(MakeRow(row, fields))[i] ==
        if fields[i].name in row then row[fields[i].name]
        else DefaultValue(fields[i].name, fields[i].dtype)
  {
    DecodeEncode(seq(|fields|, i requires 0 <= i < |fields| => CellFor(row, fields[i])));
  }
}
