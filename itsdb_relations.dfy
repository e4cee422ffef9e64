/** Reading a relations file, the schema of an [incr tsdb()] profile:
    table headers `name:` each followed by field lines
    `name :datatype [:key] [:partial] [# comment]`. */
module ItsdbRelations {
  import opened Wrappers
  import opened PyStrings
  import opened Itsdb

  /** A table of the schema and its fields, in file order. */
  datatype Table = Table(name: string, fields: seq<Field>)

  /** `Relations(tables)`: the tables in file order. */
  datatype Relations = Relations(tables: seq<Table>)

  datatype RelationsError =
    | TableRedefined(table: string)
      /** a non-blank line that is neither a header nor a field of a table */
    | InvalidLine(line: string)
      /** a field line without a datatype; Python raises `AttributeError`
          or `IndexError` here rather than `ItsdbError` */
    | MissingDatatype(line: string)

  // ---------------------------------------------------------------------
  // Lines

  /** The characters at which `str.splitlines` breaks a line. */
  predicate IsLineBreak(c: char) {
    var n := c as int;
    n == 0x0A || n == 0x0B || n == 0x0C || n == 0x0D || n == 0x1C || n == 0x1D ||
    n == 0x1E || n == 0x85 || n == 0x2028 || n == 0x2029
  }

  /** The position of the first line break in `s`, or `|s|`. */
  function LineEnd(s: string): (i: nat)
    ensures i <= |s|
    ensures forall k :: 0 <= k < i ==> !IsLineBreak(s[k])
    ensures i < |s| ==> IsLineBreak(s[i])
  {
    if s == [] || IsLineBreak(s[0]) then 0 else 1 + LineEnd(s[1..])
  }

  /** `s.splitlines()`: `\r\n` counts as one break, and text after the last
      break, if any, is the last line. */
  function SplitLines(s: string): (r: seq<string>)
    ensures forall k, j :: 0 <= k < |r| && 0 <= j < |r[k]| ==> !IsLineBreak(r[k][j])
    ensures forall k :: 0 <= k < |r| ==> '\n' !in r[k]
    ensures r == [] <==> s == []
    decreases |s|
  {
    if s == [] then []
    else
      var i := LineEnd(s);
      if i == |s| then [s]
      else
        var skip := if s[i] == '\r' && i + 1 < |s| && s[i + 1] == '\n' then 2 else 1;
        [s[..i]] + SplitLines(s[i + skip..])
  }

  predicate NoLineBreak(a: string) {
    forall k :: 0 <= k < |a| ==> !IsLineBreak(a[k])
  }

  /** Non-empty text without a break is one line. */
  lemma SplitLinesSingle(a: string)
    requires a != [] && NoLineBreak(a)
    ensures SplitLines(a) == [a]
  {
    assert LineEnd(a) == |a|;
  }

  /** Text up to a single break character is the first line, and the rest
      is split on its own. */
  lemma SplitLinesBreak(a: string, c: char, b: string)
    requires NoLineBreak(a) && IsLineBreak(c) && !(c == '\r' && b != [] && b[0] == '\n')
    ensures SplitLines(a + [c] + b) == [a] + SplitLines(b)
  {
    var s := a + [c] + b;
    assert s[|a|] == c;
    assert forall k :: 0 <= k < |a| ==> s[k] == a[k];
    assert LineEnd(s) == |a|;
    assert s[..|a|] == a;
    assert s[|a| + 1..] == b;
  }

  /** `\r\n` is one break. */
  lemma SplitLinesCrLf(a: string, b: string)
    requires NoLineBreak(a)
    ensures SplitLines(a + "\r\n" + b) == [a] + SplitLines(b)
  {
    var s := a + "\r\n" + b;
    assert s[|a|] == '\r' && s[|a| + 1] == '\n';
    assert forall k :: 0 <= k < |a| ==> s[k] == a[k];
    assert LineEnd(s) == |a|;
    assert s[..|a|] == a;
    assert s[|a| + 2..] == b;
  }

  // ---------------------------------------------------------------------
  // One line

  /** The ASCII part of the `\w` regex class. */
  predicate IsWordChar(c: char) {
    IsAsciiUpper(c) || IsAsciiLower(c) || IsDigit(c) || c == '_'
  }

  /** The stripped line matches `^\w.+:$`. */
  predicate IsTableHeader(line: string) {
    |line| >= 3 && IsWordChar(line[0]) && line[|line| - 1] == ':' && '\n' !in line
  }

  function HeaderName(line: string): string
    requires IsTableHeader(line)
  {
    line[..|line| - 1]
  }

  /** A field line: the name is the leading non-blank run; the attributes
      are the words between it and the first `#`, the first of them the
      datatype; the comment is the text after that `#`, left-stripped. */
  function ParseField(line: string): Result<Field, RelationsError>
  {
    var t := LStrip(line);
    var name := Word(t);
    FieldAfterName(line, name, t[|name|..])
  }

  /** The field a line makes from its name and the text after the name. */
  function FieldAfterName(line: string, name: string, rest: string): Result<Field, RelationsError>
  {
    var h := IndexOf(rest, '#');
    var attrs := SplitWhitespace(rest[..h]);
    if attrs == [] then Failure(MissingDatatype(line))
    else
      var comment := if h < |rest| then Some(LStrip(rest[h + 1..])) else None;
      Success(Field(name, attrs[0], ":key" in attrs[1..], ":partial" in attrs[1..], comment))
  }

  function Names(tables: seq<Table>): (r: seq<string>)
    ensures |r| == |tables|
    ensures forall k :: 0 <= k < |r| ==> r[k] == tables[k].name
  {
    seq(|tables|, k requires 0 <= k < |tables| => tables[k].name)
  }

  /** A new, empty table after the others. */
  function OpenTable(tables: seq<Table>, name: string): (r: seq<Table>)
    ensures Names(r) == Names(tables) + [name]
  {
    tables + [Table(name, [])]
  }

  /** The field appended to the table opened last. */
  function AddField(tables: seq<Table>, f: Field): (r: seq<Table>)
    requires tables != []
    ensures Names(r) == Names(tables)
    ensures r[|r| - 1].fields == tables[|tables| - 1].fields + [f]
    ensures forall k :: 0 <= k < |r| - 1 ==> r[k] == tables[k]
  {
    var last := tables[|tables| - 1];
    var r := tables[..|tables| - 1] + [Table(last.name, last.fields + [f])];
    assert forall k :: 0 <= k < |r| ==> Names(r)[k] == Names(tables)[k];
    r
  }

  /** What one line of the file is, once stripped. */
  datatype LineKind =
    | Blank
    | Header(name: string)
      /** any other text: a field line of the current table, if there is one */
    | Content(line: string)

  function Classify(raw: string): LineKind {
    var line := Strip(raw);
    if IsTableHeader(line) then Header(HeaderName(line))
    else if line != [] then Content(line)
    else Blank
  }

  function Kinds(lines: seq<string>): (r: seq<LineKind>)
    ensures |r| == |lines|
  {
    seq(|lines|, k requires 0 <= k < |lines| => Classify(lines[k]))
  }

  lemma KindsAt(lines: seq<string>, k: nat)
    requires k < |lines|
    ensures Kinds(lines)[k] == Classify(lines[k])
  {
  }

  /** The tables after one more line of the file. New fields go to the
      table opened last. */
  function Step(tables: seq<Table>, kind: LineKind): Result<seq<Table>, RelationsError>
  {
    match kind
    case Header(name) =>
      if name in Names(tables) then Failure(TableRedefined(name))
      else Success(OpenTable(tables, name))
    case Content(line) =>
      if tables == [] then Failure(InvalidLine(line))
      else
        var f :- ParseField(line);
        Success(AddField(tables, f))
    case Blank => Success(tables)
  }

  /** The tables after the given lines, starting from `tables`. */
  function ParseKinds(tables: seq<Table>, kinds: seq<LineKind>): Result<seq<Table>, RelationsError>
    decreases |kinds|
  {
    if kinds == [] then Success(tables)
    else
      var next :- Step(tables, kinds[0]);
      ParseKinds(next, kinds[1..])
  }

  /** The schema a relations file describes, or the error reading it raises. */
  function ParseRelations(s: string): Result<seq<Table>, RelationsError> {
    ParseKinds([], Kinds(SplitLines(s)))
  }

  /** Reading the lines from position `i` on: the first of them, then the
      rest. */
  lemma ParseKindsCons(tables: seq<Table>, lines: seq<string>, i: nat)
    requires i < |lines|
    ensures ParseKinds(tables, Kinds(lines[i..])) ==
      match Step(tables, Classify(lines[i]))
      case Failure(e) => Failure(e)
      case Success(next) => ParseKinds(next, Kinds(lines[i + 1..]))
  {
    KindsCons(lines, i);
  }

  lemma KindsCons(lines: seq<string>, i: nat)
    requires i < |lines|
    ensures Kinds(lines[i..]) == [Classify(lines[i])] + Kinds(lines[i + 1..])
  {
    assert lines[i..][1..] == lines[i + 1..];
  }

  /** The body of the loop in `Relations.from_string`: one line read into
      the tables and the set of names seen so far. */
  method ReadLine(tables: seq<Table>, seen: set<string>, raw: string)
    returns (r: Result<seq<Table>, RelationsError>, seen': set<string>)
    requires forall n :: n in seen <==> n in Names(tables)
    ensures r == Step(tables, Classify(raw))
    ensures r.Success? ==> forall n :: n in seen' <==> n in Names(r.value)
  {
    var kind := Classify(raw);
    r, seen' := ReadKind(tables, seen, kind);
  }

  /** One classified line read into the tables and the set of names seen
      so far. */
  method ReadKind(tables: seq<Table>, seen: set<string>, kind: LineKind)
    returns (r: Result<seq<Table>, RelationsError>, seen': set<string>)
    requires forall n :: n in seen <==> n in Names(tables)
    ensures r == Step(tables, kind)
    ensures r.Success? ==> forall n :: n in seen' <==> n in Names(r.value)
  {
    seen' := seen;
    match kind {
      case Header(name) =>
        if name in seen {
          return Failure(TableRedefined(name)), seen';
        }
        r := Success(OpenTable(tables, name));
        seen' := seen + {name};
        SeenAfterOpen(tables, seen, name);
      case Content(line) =>
        if tables == [] {
          return Failure(InvalidLine(line)), seen';
        }
        var parsed := ParseField(line);
        if parsed.Failure? {
          return Failure(parsed.error), seen';
        }
        r := Success(AddField(tables, parsed.value));
      case Blank =>
        r := Success(tables);
    }
  }

  lemma SeenAfterOpen(tables: seq<Table>, seen: set<string>, name: string)
    requires forall n :: n in seen <==> n in Names(tables)
    ensures forall n :: n in seen + {name} <==> n in Names(OpenTable(tables, name))
  {
    assert Names(OpenTable(tables, name)) == Names(tables) + [name];
  }


  /** `Relations.from_string(s)`: the lines are taken in order (the source
      reverses them and pops from the end); each one opens a table, adds a
      field to the current table, is blank, or is an error. */
  method FromString(s: string) returns (r: Result<Relations, RelationsError>)
    ensures r.Failure? <==> ParseRelations(s).Failure?
    ensures r.Failure? ==> r.error == ParseRelations(s).error
    ensures r.Success? ==> r.value.tables == ParseRelations(s).value
  {
    var lines := SplitLines(s);
    var tables: seq<Table> := [];
    var seen: set<string> := {};
    var i := 0;
    assert lines[0..] == lines;
    while i < |lines|
      invariant 0 <= i <= |lines|
      invariant forall n :: n in seen <==> n in Names(tables)
      invariant ParseKinds(tables, Kinds(lines[i..])) == ParseRelations(s)
    {
      ParseKindsCons(tables, lines, i);
      var next, seen' := ReadLine(tables, seen, lines[i]);
      if next.Failure? {
        return Failure(next.error);
      }
      tables, seen := next.value, seen';
      i := i + 1;
    }
    r := Success(Relations(tables));
  }

  // ---------------------------------------------------------------------
  // Properties

  /** The names of the header lines, in file order. */
  function HeaderNames(kinds: seq<LineKind>): seq<string>
  {
    if kinds == [] then []
    else
      var first := if kinds[0].Header? then [kinds[0].name] else [];
      first + HeaderNames(kinds[1..])
  }

  predicate Distinct(names: seq<string>) {
    forall i, j :: 0 <= i < j < |names| ==> names[i] != names[j]
  }

  lemma {:induction false} StepNames(tables: seq<Table>, kind: LineKind)
    requires Step(tables, kind).Success?
    ensures Names(Step(tables, kind).value) == Names(tables) + (if kind.Header? then [kind.name] else [])
    ensures Distinct(Names(tables)) ==> Distinct(Names(Step(tables, kind).value))
  {
  }

  /** The tables are the header lines' names, in file order, each once. */
  lemma {:induction false} ParseKindsNames(tables: seq<Table>, kinds: seq<LineKind>)
    requires Distinct(Names(tables))
    requires ParseKinds(tables, kinds).Success?
    ensures Names(ParseKinds(tables, kinds).value) == Names(tables) + HeaderNames(kinds)
    ensures Distinct(Names(ParseKinds(tables, kinds).value))
    decreases |kinds|
  {
    if kinds != [] {
      var next := Step(tables, kinds[0]).value;
      StepNames(tables, kinds[0]);
      ParseKindsNames(next, kinds[1..]);
    }
  }

  /** Table order in the result is header order in the file, and no table
      is defined twice. */
  lemma TableOrder(s: string)
    requires ParseRelations(s).Success?
    ensures Names(ParseRelations(s).value) == HeaderNames(Kinds(SplitLines(s)))
    ensures Distinct(Names(ParseRelations(s).value))
  {
    var kinds := Kinds(SplitLines(s));
    ParseKindsNames([], kinds);
    assert Names([]) + HeaderNames(kinds) == HeaderNames(kinds);
  }

  /** A file that defines a table name twice is rejected. */
  lemma DuplicateTableFails(s: string)
    requires !Distinct(HeaderNames(Kinds(SplitLines(s))))
    ensures ParseRelations(s).Failure?
  {
    if ParseRelations(s).Success? {
      TableOrder(s);
    }
  }

  /** A non-blank line that is not a header and comes before any header is
      an error. */
  lemma {:induction false} ContentBeforeHeaderFails(kinds: seq<LineKind>, i: nat)
    requires i < |kinds| && kinds[i].Content?
    requires forall k :: 0 <= k < i ==> !kinds[k].Header?
    ensures ParseKinds([], kinds).Failure?
    decreases i
  {
    if i > 0 {
      var next := Step([], kinds[0]);
      if next.Success? {
        assert next.value == [];
        ContentBeforeHeaderFails(kinds[1..], i - 1);
      }
    }
  }

  lemma LineBeforeHeaderFails(s: string, i: nat)
    requires i < |SplitLines(s)|
    requires Strip(SplitLines(s)[i]) != [] && !IsTableHeader(Strip(SplitLines(s)[i]))
    requires forall k :: 0 <= k < i ==> !IsTableHeader(Strip(SplitLines(s)[k]))
    ensures ParseRelations(s).Failure?
  {
    LinesBeforeHeaderFail(SplitLines(s), i);
  }

  lemma LinesBeforeHeaderFail(lines: seq<string>, i: nat)
    requires i < |lines|
    requires Strip(lines[i]) != [] && !IsTableHeader(Strip(lines[i]))
    requires forall k :: 0 <= k < i ==> !IsTableHeader(Strip(lines[k]))
    ensures ParseKinds([], Kinds(lines)).Failure?
  {
    var kinds := Kinds(lines);
    KindAt(lines, i);
    forall k | 0 <= k < i
      ensures !kinds[k].Header?
    {
      KindAt(lines, k);
    }
    ContentBeforeHeaderFails(kinds, i);
  }

  /** How a line's stripped text decides its kind. */
  lemma KindAt(lines: seq<string>, k: nat)
    requires k < |lines|
    ensures Kinds(lines)[k].Header? <==> IsTableHeader(Strip(lines[k]))
    ensures Kinds(lines)[k].Content? <==> Strip(lines[k]) != [] && !IsTableHeader(Strip(lines[k]))
  {
    KindsAt(lines, k);
  }

  /** The line is a field line that makes field `f`. */
  predicate Yields(kind: LineKind, f: Field) {
    kind.Content? && ParseField(kind.line) == Success(f)
  }

  /** Every field of every table comes from a line of the file. */
  lemma {:induction false} FieldsFromKinds(tables: seq<Table>, kinds: seq<LineKind>)
    requires ParseKinds(tables, kinds).Success?
    ensures forall t, f :: t in ParseKinds(tables, kinds).value && f in t.fields ==>
      (exists u :: u in tables && f in u.fields) ||
      (exists k :: 0 <= k < |kinds| && Yields(kinds[k], f))
    decreases |kinds|
  {
    if kinds != [] {
      ParseKindsFirst(tables, kinds);
      var next := Step(tables, kinds[0]).value;
      FieldsFromKinds(next, kinds[1..]);
      var result := ParseKinds(next, kinds[1..]).value;
      forall t, f | t in result && f in t.fields
        ensures (exists u :: u in tables && f in u.fields) ||
          (exists k :: 0 <= k < |kinds| && Yields(kinds[k], f))
      {
        if exists u :: u in next && f in u.fields {
          var u :| u in next && f in u.fields;
          StepFieldSource(tables, kinds[0], u, f);
        } else {
          var k :| 0 <= k < |kinds[1..]| && Yields(kinds[1..][k], f);
          assert kinds[k + 1] == kinds[1..][k];
        }
      }
    }
  }

  lemma ParseKindsFirst(tables: seq<Table>, kinds: seq<LineKind>)
    requires kinds != [] && ParseKinds(tables, kinds).Success?
    ensures Step(tables, kinds[0]).Success?
    ensures ParseKinds(tables, kinds) == ParseKinds(Step(tables, kinds[0]).value, kinds[1..])
  {
  }

  lemma {:induction false} StepFieldSource(tables: seq<Table>, kind: LineKind, u: Table, f: Field)
    requires Step(tables, kind).Success?
    requires u in Step(tables, kind).value && f in u.fields
    ensures (exists v :: v in tables && f in v.fields) || Yields(kind, f)
  {
    var next := Step(tables, kind).value;
    var k :| 0 <= k < |next| && next[k] == u;
    match kind
    case Content(line) =>
      AddFieldSource(tables, ParseField(line).value, u, f);
    case Header(name) =>
      assert k < |tables| ==> tables[k] == u;
    case Blank =>
      assert tables[k] == u;
  }

  lemma AddFieldSource(tables: seq<Table>, g: Field, u: Table, f: Field)
    requires tables != []
    requires u in AddField(tables, g) && f in u.fields
    ensures (exists v :: v in tables && f in v.fields) || f == g
  {
    var next := AddField(tables, g);
    var k :| 0 <= k < |next| && next[k] == u;
    var last := tables[|tables| - 1];
    if k < |tables| - 1 {
      assert tables[k] == u;
    } else if f in last.fields {
      assert last in tables;
    } else {
      assert u.fields == last.fields + [g];
    }
  }

  /** Every field of a schema read from a file is what `ParseField` makes
      of one of the file's lines. */
  lemma FieldsFromLines(s: string, t: Table, f: Field)
    requires ParseRelations(s).Success?
    requires t in ParseRelations(s).value && f in t.fields
    ensures exists k :: 0 <= k < |SplitLines(s)| && ParseField(Strip(SplitLines(s)[k])) == Success(f)
  {
    var lines := SplitLines(s);
    var kinds := Kinds(lines);
    FieldFromSomeKind(kinds, t, f);
    var k :| 0 <= k < |kinds| && Yields(kinds[k], f);
    YieldsLine(lines, k, f);
  }

  lemma YieldsLine(lines: seq<string>, k: nat, f: Field)
    requires k < |lines| && Yields(Kinds(lines)[k], f)
    ensures ParseField(Strip(lines[k])) == Success(f)
  {
    KindsAt(lines, k);
    ContentLine(lines[k]);
    assert Kinds(lines)[k].line == Strip(lines[k]);
  }

  lemma ContentLine(raw: string)
    ensures Classify(raw).Content? ==> Classify(raw).line == Strip(raw)
  {
  }

  lemma FieldFromSomeKind(kinds: seq<LineKind>, t: Table, f: Field)
    requires ParseKinds([], kinds).Success?
    requires t in ParseKinds([], kinds).value && f in t.fields
    ensures exists k :: 0 <= k < |kinds| && Yields(kinds[k], f)
  {
    FieldsFromKinds([], kinds);
  }

  // ---------------------------------------------------------------------
  // Field lines built from their parts

  lemma {:induction false} WordOf(w: string, rest: string)
    requires IsWord(w)
    requires rest == [] || IsSpace(rest[0])
    ensures Word(w + rest) == w
    decreases |w|
  {
    if |w| > 1 {
      WordOf(w[1..], rest);
      assert (w + rest)[1..] == w[1..] + rest;
    } else {
      assert (w + rest)[1..] == rest;
    }
  }

  lemma {:induction false} LStripSpace(s: string)
    ensures LStrip(" " + s) == LStrip(s)
  {
    assert (" " + s)[1..] == s;
  }

  lemma {:induction false} LStripWord(w: string, rest: string)
    requires IsWord(w)
    ensures LStrip(w + rest) == w + rest
  {
    assert (w + rest)[0] == w[0];
  }

  /** A word followed by a blank or nothing is the first word of the split. */
  lemma SplitWhitespaceWord(w: string, rest: string)
    requires IsWord(w)
    requires rest == [] || IsSpace(rest[0])
    ensures SplitWhitespace(w + rest) == [w] + SplitWhitespace(rest)
  {
    LStripWord(w, rest);
    WordOf(w, rest);
    assert (w + rest)[|w|..] == rest;
  }

  lemma SplitWhitespaceSpace(s: string)
    ensures SplitWhitespace(" " + s) == SplitWhitespace(s)
  {
    LStripSpace(s);
  }

  /** Splitting words joined by single spaces gives the words back. */
  lemma {:induction false} SplitWhitespaceJoin(words: seq<string>)
    requires forall k :: 0 <= k < |words| ==> IsWord(words[k])
    ensures SplitWhitespace(Join(words, ' ')) == words
  {
    if |words| == 1 {
      SplitWhitespaceSingle(words[0]);
    } else if |words| > 1 {
      SplitWhitespaceJoinCons(words);
      forall k | 0 <= k < |words| - 1 ensures IsWord(words[1..][k]) {
        assert words[1..][k] == words[k + 1];
      }
      SplitWhitespaceJoin(words[1..]);
      HeadTail(words);
    }
  }

  lemma HeadTail<T>(s: seq<T>)
    requires s != []
    ensures [s[0]] + s[1..] == s
  {
  }

  lemma SplitWhitespaceSingle(w: string)
    requires IsWord(w)
    ensures SplitWhitespace(w) == [w]
  {
    var none: string := [];
    assert w + none == w;
    SplitWhitespaceWord(w, none);
    assert SplitWhitespace(none) == [];
  }

  lemma SplitWhitespaceJoinCons(words: seq<string>)
    requires |words| > 1 && IsWord(words[0])
    ensures SplitWhitespace(Join(words, ' ')) == [words[0]] + SplitWhitespace(Join(words[1..], ' '))
  {
    var w := words[0];
    var tail := Join(words[1..], ' ');
    assert Join(words, ' ') == w + (" " + tail);
    SplitWhitespaceWord(w, " " + tail);
    SplitWhitespaceSpace(tail);
  }

  /** A line that starts with a word is parsed from the text after it. */
  lemma ParseFieldAfter(name: string, rest: string)
    requires IsWord(name)
    requires rest == [] || IsSpace(rest[0])
    ensures ParseField(name + rest) == FieldAfterName(name + rest, name, rest)
  {
    LStripWord(name, rest);
    WordOf(name, rest);
    assert (name + rest)[|name|..] == rest;
  }

  /** A field line `name attr1 attr2 ...` has `attr1` as its datatype and
      sets `key`/`partial` exactly when `:key`/`:partial` is among the
      other attributes. */
  lemma {:induction false} FieldLineFlags(name: string, attrs: seq<string>)
    requires IsWord(name) && |attrs| >= 1
    requires forall k :: 0 <= k < |attrs| ==> IsWord(attrs[k]) && '#' !in attrs[k]
    ensures ParseField(name + " " + Join(attrs, ' ')) ==
      Success(Field(name, attrs[0], ":key" in attrs[1..], ":partial" in attrs[1..], None))
  {
    var joined := Join(attrs, ' ');
    var rest := " " + joined;
    assert name + " " + joined == name + rest;
    ParseFieldAfter(name, rest);
    JoinWithout(attrs, ' ', '#');
    assert '#' !in rest;
    SplitWhitespaceSpace(joined);
    SplitWhitespaceJoin(attrs);
    FieldAfterNoHash(name + rest, name, rest);
  }

  /** Without a `#`, all the text after the name holds the attributes, and
      there is no comment. */
  lemma FieldAfterNoHash(line: string, name: string, rest: string)
    requires '#' !in rest
    ensures FieldAfterName(line, name, rest) ==
      var attrs := SplitWhitespace(rest);
      if attrs == [] then Failure(MissingDatatype(line))
      else Success(Field(name, attrs[0], ":key" in attrs[1..], ":partial" in attrs[1..], None))
  {
    IndexOfAbsent(rest, '#');
    assert rest[..|rest|] == rest;
  }

  /** The text after a name, up to its first `#`, holds the attributes;
      the text after the `#` is the comment. */
  lemma FieldAfterHash(line: string, name: string, pre: string, post: string)
    requires '#' !in pre
    ensures FieldAfterName(line, name, pre + "#" + post) ==
      var attrs := SplitWhitespace(pre);
      if attrs == [] then Failure(MissingDatatype(line))
      else Success(Field(name, attrs[0], ":key" in attrs[1..], ":partial" in attrs[1..], Some(LStrip(post))))
  {
    var rest := pre + "#" + post;
    IndexOfAfter(pre, '#', post);
    assert rest[..|pre|] == pre;
    assert rest[|pre| + 1..] == post;
  }

  /** With a comment after the attributes, the comment is the text after
      the `#`, without leading blanks. */
  lemma {:induction false} FieldLineComment(name: string, attrs: seq<string>, comment: string)
    requires IsWord(name) && |attrs| >= 1
    requires forall k :: 0 <= k < |attrs| ==> IsWord(attrs[k]) && '#' !in attrs[k]
    requires comment == [] || !IsSpace(comment[0])
    ensures ParseField(name + " " + Join(attrs, ' ') + " # " + comment) ==
      Success(Field(name, attrs[0], ":key" in attrs[1..], ":partial" in attrs[1..], Some(comment)))
  {
    var joined := Join(attrs, ' ');
    var pre := " " + (joined + " ");
    var post := " " + comment;
    var rest := pre + "#" + post;
    assert name + " " + joined + " # " + comment == name + rest;
    ParseFieldAfter(name, rest);
    JoinWithout(attrs, ' ', '#');
    FieldAfterHash(name + rest, name, pre, post);
    LStripSpace(comment);
    SplitWhitespaceSpace(joined + " ");
    SplitWhitespaceTrailing(joined);
    SplitWhitespaceJoin(attrs);
  }

  lemma SliceAppend<T>(a: seq<T>, b: seq<T>, i: nat)
    requires i <= |a|
    ensures (a + b)[i..] == a[i..] + b
  {
  }

  /** A trailing blank does not change the words. */
  lemma {:induction false} SplitWhitespaceTrailing(s: string)
    ensures SplitWhitespace(s + " ") == SplitWhitespace(s)
    decreases |s|
  {
    var t := LStrip(s);
    LStripTrailing(s);
    if t == [] {
      assert LStrip(s + " ") == [];
    } else {
      var w := Word(t);
      WordTrailing(t);
      assert |w| >= 1;
      SliceAppend(t, " ", |w|);
      SplitWhitespaceTrailing(t[|w|..]);
    }
  }

  lemma LStripBlank()
    ensures LStrip(" ") == []
  {
    assert IsSpace(' ');
    assert " "[1..] == [];
  }

  lemma {:induction false} LStripTrailing(s: string)
    ensures LStrip(s + " ") == if LStrip(s) == [] then [] else LStrip(s) + " "
    decreases |s|
  {
    var t := s + " ";
    if s == [] {
      assert t == " ";
      LStripBlank();
    } else if IsSpace(s[0]) {
      assert t[0] == s[0];
      assert t[1..] == s[1..] + " ";
      assert LStrip(t) == LStrip(t[1..]);
      assert LStrip(s) == LStrip(s[1..]);
      LStripTrailing(s[1..]);
    } else {
      assert t[0] == s[0];
      assert LStrip(t) == t;
      assert LStrip(s) == s;
    }
  }

  lemma {:induction false} WordTrailing(t: string)
    requires t != []
    ensures Word(t + " ") == Word(t)
    decreases |t|
  {
    if !IsSpace(t[0]) {
      assert (t + " ")[1..] == t[1..] + " ";
      if t[1..] != [] {
        WordTrailing(t[1..]);
      } else {
        assert Word(" ") == [];
      }
    }
  }

  /** A field line with no attributes has no datatype. */
  lemma FieldLineWithoutDatatype(name: string)
    requires IsWord(name)
    ensures ParseField(name) == Failure(MissingDatatype(name))
  {
    var none: string := [];
    assert name + none == name;
    ParseFieldAfter(name, none);
    assert SplitWhitespace(none) == [];
  }
}
