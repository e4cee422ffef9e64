/** The TSQL query parser (delphin/tsql.py, "QUERY PARSING").

    The source drives a lexer object with `accept_type`, `expect_type` and
    `choice_type`; here the lexer's output is a sequence of tokens and the
    lexer's cursor is a position in it. Each recursive-descent step is given
    twice: a function that says what the step produces (`Projection`,
    `Disjunction`, ...), and a method with the source's loop that is proved to
    compute exactly that function (`ParseSelectProjection`,
    `ParseConditionDisjunction`, ...). */
module TsqlParser {
  import opened Wrappers
  import opened PyStrings
  import opened TsqlSyntax

  /** A parsed value and the position of the first token not consumed. */
  datatype Parsed<T> = Parsed(value: T, next: nat)

  /** The dictionary `_parse_select` returns (its 'type' is always 'select'). */
  datatype Query = Query(projection: seq<string>, relations: seq<string>, condition: Option<Condition>)

  predicate At(toks: seq<Token>, pos: nat, t: TokenType) {
    pos < |toks| && toks[pos].typ == t
  }

  /** The lexer's `choice_type` (and `expect_type` for a single type): the
      token at `pos` when its type is one of `types`, otherwise a syntax error. */
  function Choice(toks: seq<Token>, pos: nat, types: set<TokenType>): (r: Result<Parsed<Token>, Error>)
    ensures r.Success? <==> pos < |toks| && toks[pos].typ in types
    ensures r.Success? ==> r.value == Parsed(toks[pos], pos + 1)
    ensures r.Failure? ==> r.error == UnexpectedToken(types, pos)
  {
    if pos < |toks| && toks[pos].typ in types then Success(Parsed(toks[pos], pos + 1))
    else Failure(UnexpectedToken(types, pos))
  }

  /** Tokens accepted one after another while their type is in `types`. */
  function Run(toks: seq<Token>, pos: nat, types: set<TokenType>): (r: Parsed<seq<string>>)
    requires pos <= |toks|
    ensures pos <= r.next <= |toks| && |r.value| == r.next - pos
    ensures forall i :: pos <= i < r.next ==> toks[i].typ in types && r.value[i - pos] == toks[i].text
    ensures r.next == |toks| || toks[r.next].typ !in types
    decreases |toks| - pos
  {
    if pos < |toks| && toks[pos].typ in types then
      var rest := Run(toks, pos + 1, types);
      Parsed([toks[pos].text] + rest.value, rest.next)
    else Parsed([], pos)
  }

  // ---------------------------------------------------------------------
  // projection and from

  const IdTypes: set<TokenType> := {QID, ID}

  /** `*`, or one or more (qualified) column identifiers. */
  function Projection(toks: seq<Token>, pos: nat): (r: Result<Parsed<seq<string>>, Error>)
    requires pos <= |toks|
    ensures r.Success? ==> pos < r.value.next <= |toks| && |r.value.value| >= 1
    ensures r.Success? && toks[pos].typ == STAR ==> r.value == Parsed([toks[pos].text], pos + 1)
    ensures r.Failure? <==> !(pos < |toks| && toks[pos].typ in {STAR, QID, ID})
  {
    var first :- Choice(toks, pos, {STAR, QID, ID});
    if first.value.typ == STAR then Success(Parsed([first.value.text], pos + 1))
    else
      var run := Run(toks, pos + 1, IdTypes);
      Success(Parsed([first.value.text] + run.value, run.next))
  }

  method ParseSelectProjection(toks: seq<Token>, pos: nat) returns (r: Result<Parsed<seq<string>>, Error>)
    requires pos <= |toks|
    ensures r == Projection(toks, pos)
  {
    var first := Choice(toks, pos, {STAR, QID, ID});
    if first.Failure? {
      return Failure(first.error);
    }
    var t := first.value.value;
    if t.typ == STAR {
      return Success(Parsed([t.text], pos + 1));
    }
    ghost var run := Run(toks, pos + 1, IdTypes);
    var projection := [t.text];
    var p := pos + 1;
    while p < |toks| && toks[p].typ in IdTypes
      invariant pos < p <= |toks|
      invariant [t.text] + run.value == projection + Run(toks, p, IdTypes).value
      invariant run.next == Run(toks, p, IdTypes).next
      decreases |toks| - p
    {
      assert Run(toks, p, IdTypes).value == [toks[p].text] + Run(toks, p + 1, IdTypes).value;
      assert projection + Run(toks, p, IdTypes).value == (projection + [toks[p].text]) + Run(toks, p + 1, IdTypes).value;
      projection := projection + [toks[p].text];
      p := p + 1;
    }
    assert Run(toks, p, IdTypes) == Parsed([], p);
    assert projection + [] == projection;
    return Success(Parsed(projection, p));
  }

  const RelationTypes: set<TokenType> := {ID}

  /** An optional `from` followed by one or more relation identifiers. */
  function From(toks: seq<Token>, pos: nat): (r: Result<Parsed<seq<string>>, Error>)
    requires pos <= |toks|
    ensures r.Success? ==> pos <= r.value.next <= |toks|
    ensures r.Success? ==> (r.value.value == [] <==> !At(toks, pos, FROM))
    ensures r.Failure? <==> At(toks, pos, FROM) && !At(toks, pos + 1, ID)
  {
    if At(toks, pos, FROM) then
      var first :- Choice(toks, pos + 1, RelationTypes);
      var run := Run(toks, pos + 2, RelationTypes);
      Success(Parsed([first.value.text] + run.value, run.next))
    else Success(Parsed([], pos))
  }

  method ParseSelectFrom(toks: seq<Token>, pos: nat) returns (r: Result<Parsed<seq<string>>, Error>)
    requires pos <= |toks|
    ensures r == From(toks, pos)
  {
    var relations: seq<string> := [];
    if !At(toks, pos, FROM) {
      return Success(Parsed(relations, pos));
    }
    var first := Choice(toks, pos + 1, RelationTypes);
    if first.Failure? {
      return Failure(first.error);
    }
    ghost var run := Run(toks, pos + 2, RelationTypes);
    relations := [first.value.value.text];
    var p := pos + 2;
    while p < |toks| && toks[p].typ in RelationTypes
      invariant pos + 2 <= p <= |toks|
      invariant [first.value.value.text] + run.value == relations + Run(toks, p, RelationTypes).value
      invariant run.next == Run(toks, p, RelationTypes).next
      decreases |toks| - p
    {
      assert Run(toks, p, RelationTypes).value == [toks[p].text] + Run(toks, p + 1, RelationTypes).value;
      assert relations + Run(toks, p, RelationTypes).value == (relations + [toks[p].text]) + Run(toks, p + 1, RelationTypes).value;
      relations := relations + [toks[p].text];
      p := p + 1;
    }
    assert Run(toks, p, RelationTypes) == Parsed([], p);
    assert relations + [] == relations;
    return Success(Parsed(relations, p));
  }

  // ---------------------------------------------------------------------
  // conditions

  /** A one-element list of conditions stands for its only member. */
  function Collapse(op: BoolOp, conds: seq<Condition>): (r: Condition)
    requires |conds| >= 1
    ensures |conds| == 1 ==> r == conds[0]
    ensures |conds| >= 2 ==> r == Junction(op, conds)
  {
    if |conds| == 1 then conds[0] else Junction(op, conds)
  }

  predicate AllParsed(conds: seq<Condition>) {
    forall i :: 0 <= i < |conds| ==> WellFormed(conds[i]) && PatternsAreStrings(conds[i])
  }

  /** The source's spelling of each comparison operator; `=` means `==`. */
  function OpOf(text: string): Option<CompOp>
  {
    if |text| == 1 then
      if text[0] == '=' then Some(Eq)
      else if text[0] == '<' then Some(Lt)
      else if text[0] == '>' then Some(Gt)
      else if text[0] == '~' then Some(Match)
      else None
    else if |text| == 2 then
      if text[0] == '=' && text[1] == '=' then Some(Eq)
      else if text[0] == '!' && text[1] == '=' then Some(Ne)
      else if text[0] == '<' && text[1] == '=' then Some(Le)
      else if text[0] == '>' && text[1] == '=' then Some(Ge)
      else if text[0] == '!' && text[1] == '~' then Some(NoMatch)
      else None
    else None
  }

  /** `=` is normalised to `==`; the lexer's nine operator spellings are the
      only text that names an operator. */
  lemma OpSpellings(text: string)
    ensures OpOf(text) == Some(Eq) <==> text == "=" || text == "=="
    ensures OpOf(text) == Some(Ne) <==> text == "!="
    ensures OpOf(text) == Some(Lt) <==> text == "<"
    ensures OpOf(text) == Some(Le) <==> text == "<="
    ensures OpOf(text) == Some(Gt) <==> text == ">"
    ensures OpOf(text) == Some(Ge) <==> text == ">="
    ensures OpOf(text) == Some(Match) <==> text == "~"
    ensures OpOf(text) == Some(NoMatch) <==> text == "!~"
  {
    if |text| == 1 {
      assert text == [text[0]];
    } else if |text| == 2 {
      assert text == [text[0], text[1]];
    }
  }

  const DateTypes: set<TokenType> := {YYYYMMDD, DDMMYY, KWDATE}

  /** The literal token types each operator accepts on its right: regular
      expressions only strings, orderings only integers and dates. */
  function LiteralTypes(op: CompOp): (r: set<TokenType>)
    ensures op == Match || op == NoMatch ==> r == {DQSTRING, SQSTRING}
    ensures op in {Lt, Le, Gt, Ge} ==> r == {INT} + DateTypes
    ensures op == Eq || op == Ne ==> r == {INT, DQSTRING, SQSTRING} + DateTypes
  {
    if op == Match || op == NoMatch then {DQSTRING, SQSTRING}
    else if op in {Lt, Le, Gt, Ge} then {INT} + DateTypes
    else {INT, DQSTRING, SQSTRING} + DateTypes
  }

  /** The value of a literal token: `int(text)` (read with ASCII digits only),
      the date cast, or the string. */
  function LiteralValue(t: Token, castDate: string -> Value): (r: Result<Value, Error>)
    ensures t.typ in {DQSTRING, SQSTRING} ==> r == Success(Str(t.text))
    ensures t.typ == INT ==> (r.Success? <==> ParseSignedInt(t.text).Some?)
    ensures t.typ == INT && r.Success? ==> r.value == Int(ParseSignedInt(t.text).value)
    ensures t.typ in DateTypes ==> r == Success(castDate(t.text))
  {
    if t.typ == INT then
      match ParseSignedInt(t.text)
      case Some(i) => Success(Int(i))
      case None => Failure(InvalidInteger(t.text))
    else if t.typ in DateTypes then Success(castDate(t.text))
    else Success(Str(t.text))
  }

  /** `<column> <op> <literal>`, the column already consumed. */
  function Statement(column: string, toks: seq<Token>, pos: nat, castDate: string -> Value): (r: Result<Parsed<Condition>, Error>)
    requires pos <= |toks|
    ensures r.Success? ==> r.value.next == pos + 2 <= |toks|
  {
    var op :- Choice(toks, pos, {OP});
    match OpOf(op.value.text)
    case None => Failure(UnexpectedToken({OP}, pos))
    case Some(o) =>
      var lit :- Choice(toks, pos + 1, LiteralTypes(o));
      var v :- LiteralValue(lit.value, castDate);
      Success(Parsed(Comparison(o, column, v), pos + 2))
  }

  /** A statement compares the given column, with an operator the lexer
      spelled, against a literal of a type that operator accepts; a regular
      expression is always a string. */
  lemma StatementLiterals(column: string, toks: seq<Token>, pos: nat, castDate: string -> Value)
    requires pos <= |toks| && Statement(column, toks, pos, castDate).Success?
    ensures var c := Statement(column, toks, pos, castDate).value.value;
      c.Comparison? && c.column == column &&
      toks[pos].typ == OP && OpOf(toks[pos].text) == Some(c.op) &&
      toks[pos + 1].typ in LiteralTypes(c.op) &&
      ((c.op == Match || c.op == NoMatch) ==> c.value == Str(toks[pos + 1].text))
  {
  }

  /** One operand of a conjunction: `not` followed by a disjunction, a
      parenthesised disjunction, or a statement. */
  function Unary(toks: seq<Token>, pos: nat, castDate: string -> Value): (r: Result<Parsed<Condition>, Error>)
    requires pos <= |toks|
    ensures r.Success? ==> pos < r.value.next <= |toks|
    decreases |toks| - pos, 1
  {
    if !(pos < |toks| && (toks[pos].typ == NOT || toks[pos].typ == LPAREN || toks[pos].typ == QID || toks[pos].typ == ID)) then
      Failure(UnexpectedToken({NOT, LPAREN, QID, ID}, pos))
    else if toks[pos].typ == NOT then
      match Disjunction(toks, pos + 1, [], castDate)
      case Failure(e) => Failure(e)
      case Success(d) => Success(Parsed(Negation(d.value), d.next))
    else if toks[pos].typ == LPAREN then
      match Disjunction(toks, pos + 1, [], castDate)
      case Failure(e) => Failure(e)
      case Success(d) =>
        if At(toks, d.next, RPAREN) then Success(Parsed(d.value, d.next + 1))
        else Failure(UnexpectedToken({RPAREN}, d.next))
    else
      Statement(toks[pos].text, toks, pos + 1, castDate)
  }

  /** Operands joined by `and`, after the operands `conds` already read. */
  function Conjunction(toks: seq<Token>, pos: nat, conds: seq<Condition>, castDate: string -> Value): (r: Result<Parsed<Condition>, Error>)
    requires pos <= |toks|
    ensures r.Success? ==> pos < r.value.next <= |toks|
    decreases |toks| - pos, 2
  {
    match Unary(toks, pos, castDate)
    case Failure(e) => Failure(e)
    case Success(u) =>
      if At(toks, u.next, AND) then Conjunction(toks, u.next + 1, conds + [u.value], castDate)
      else Success(Parsed(Collapse(And, conds + [u.value]), u.next))
  }

  /** Conjunctions joined by `or`, after the conjunctions `conds` already
      read: disjunction scopes over conjunction. */
  function Disjunction(toks: seq<Token>, pos: nat, conds: seq<Condition>, castDate: string -> Value): (r: Result<Parsed<Condition>, Error>)
    requires pos <= |toks|
    ensures r.Success? ==> pos < r.value.next <= |toks|
    decreases |toks| - pos, 3
  {
    match Conjunction(toks, pos, [], castDate)
    case Failure(e) => Failure(e)
    case Success(c) =>
      if At(toks, c.next, OR) then Disjunction(toks, c.next + 1, conds + [c.value], castDate)
      else Success(Parsed(Collapse(Or, conds + [c.value]), c.next))
  }

  /** The conditions of consecutive `where` clauses. */
  function WhereClauses(toks: seq<Token>, pos: nat, conds: seq<Condition>, castDate: string -> Value): (r: Result<Parsed<seq<Condition>>, Error>)
    requires pos <= |toks|
    ensures r.Success? ==> pos <= r.value.next <= |toks|
    ensures r.Success? ==> |r.value.value| >= |conds|
    decreases |toks| - pos
  {
    if At(toks, pos, WHERE) then
      match Disjunction(toks, pos + 1, [], castDate)
      case Failure(e) => Failure(e)
      case Success(d) => WhereClauses(toks, d.next, conds + [d.value], castDate)
    else Success(Parsed(conds, pos))
  }

  // Every condition the parser builds is well formed, and its regular
  // expressions are strings.

  predicate ParsedOk(r: Result<Parsed<Condition>, Error>) {
    r.Success? ==> WellFormed(r.value.value) && PatternsAreStrings(r.value.value)
  }

  lemma {:induction false} UnaryWellFormed(toks: seq<Token>, pos: nat, castDate: string -> Value)
    requires pos <= |toks|
    ensures ParsedOk(Unary(toks, pos, castDate))
    decreases |toks| - pos, 1
  {
    if pos < |toks| && toks[pos].typ in {NOT, LPAREN} {
      DisjunctionWellFormed(toks, pos + 1, [], castDate);
    }
  }

  lemma {:induction false} ConjunctionWellFormed(toks: seq<Token>, pos: nat, conds: seq<Condition>, castDate: string -> Value)
    requires pos <= |toks| && AllParsed(conds)
    ensures ParsedOk(Conjunction(toks, pos, conds, castDate))
    decreases |toks| - pos, 2
  {
    UnaryWellFormed(toks, pos, castDate);
    var u := Unary(toks, pos, castDate);
    if u.Success? && At(toks, u.value.next, AND) {
      ConjunctionWellFormed(toks, u.value.next + 1, conds + [u.value.value], castDate);
    }
  }

  lemma {:induction false} DisjunctionWellFormed(toks: seq<Token>, pos: nat, conds: seq<Condition>, castDate: string -> Value)
    requires pos <= |toks| && AllParsed(conds)
    ensures ParsedOk(Disjunction(toks, pos, conds, castDate))
    decreases |toks| - pos, 3
  {
    ConjunctionWellFormed(toks, pos, [], castDate);
    var c := Conjunction(toks, pos, [], castDate);
    if c.Success? && At(toks, c.value.next, OR) {
      DisjunctionWellFormed(toks, c.value.next + 1, conds + [c.value.value], castDate);
    }
  }

  lemma {:induction false} WhereClausesWellFormed(toks: seq<Token>, pos: nat, conds: seq<Condition>, castDate: string -> Value)
    requires pos <= |toks| && AllParsed(conds)
    ensures WhereClauses(toks, pos, conds, castDate).Success? ==> AllParsed(WhereClauses(toks, pos, conds, castDate).value.value)
    decreases |toks| - pos
  {
    if At(toks, pos, WHERE) {
      DisjunctionWellFormed(toks, pos + 1, [], castDate);
      var d := Disjunction(toks, pos + 1, [], castDate);
      if d.Success? {
        WhereClausesWellFormed(toks, d.value.next, conds + [d.value.value], castDate);
      }
    }
  }

  /** Several `where` clauses are one conjunction; none is no condition. */
  function CombineWheres(conds: seq<Condition>): (r: Option<Condition>)
    ensures r.None? <==> conds == []
    ensures |conds| == 1 ==> r == Some(conds[0])
    ensures |conds| >= 2 ==> r == Some(Junction(And, conds))
  {
    if conds == [] then None else Some(Collapse(And, conds))
  }

  function Where(toks: seq<Token>, pos: nat, castDate: string -> Value): (r: Result<Parsed<Option<Condition>>, Error>)
    requires pos <= |toks|
    ensures r.Success? ==> pos <= r.value.next <= |toks|
    ensures r.Success? && r.value.value.Some? ==>
      WellFormed(r.value.value.value) && PatternsAreStrings(r.value.value.value)
  {
    var conds :- WhereClauses(toks, pos, [], castDate);
    WhereClausesWellFormed(toks, pos, [], castDate);
    Success(Parsed(CombineWheres(conds.value), conds.next))
  }

  method ParseConditionStatement(column: string, toks: seq<Token>, pos: nat, castDate: string -> Value)
    returns (r: Result<Parsed<Condition>, Error>)
    requires pos <= |toks|
    ensures r == Statement(column, toks, pos, castDate)
  {
    r := Statement(column, toks, pos, castDate);
  }

  /** The body of the conjunction loop: one operand. */
  method ParseConditionOperand(toks: seq<Token>, pos: nat, castDate: string -> Value)
    returns (r: Result<Parsed<Condition>, Error>)
    requires pos <= |toks|
    ensures r == Unary(toks, pos, castDate)
    decreases |toks| - pos, 1
  {
    var t := Choice(toks, pos, {NOT, LPAREN, QID, ID});
    if t.Failure? {
      return Failure(t.error);
    }
    var typ := t.value.value.typ;
    if typ == NOT {
      var d := ParseConditionDisjunction(toks, pos + 1, castDate);
      if d.Failure? {
        return Failure(d.error);
      }
      return Success(Parsed(Negation(d.value.value), d.value.next));
    } else if typ == LPAREN {
      var d := ParseConditionDisjunction(toks, pos + 1, castDate);
      if d.Failure? {
        return Failure(d.error);
      }
      var close := Choice(toks, d.value.next, {RPAREN});
      if close.Failure? {
        return Failure(close.error);
      }
      return Success(Parsed(d.value.value, close.value.next));
    } else {
      r := ParseConditionStatement(t.value.value.text, toks, pos + 1, castDate);
    }
  }

  method ParseConditionConjunction(toks: seq<Token>, pos: nat, castDate: string -> Value)
    returns (r: Result<Parsed<Condition>, Error>)
    requires pos <= |toks|
    ensures r == Conjunction(toks, pos, [], castDate)
    decreases |toks| - pos, 2
  {
    var conds: seq<Condition> := [];
    var p := pos;
    while true
      invariant pos <= p <= |toks|
      invariant Conjunction(toks, pos, [], castDate) == Conjunction(toks, p, conds, castDate)
      decreases |toks| - p
    {
      var u := ParseConditionOperand(toks, p, castDate);
      if u.Failure? {
        return Failure(u.error);
      }
      conds := conds + [u.value.value];
      if !At(toks, u.value.next, AND) {
        return Success(Parsed(Collapse(And, conds), u.value.next));
      }
      p := u.value.next + 1;
    }
  }

  method ParseConditionDisjunction(toks: seq<Token>, pos: nat, castDate: string -> Value)
    returns (r: Result<Parsed<Condition>, Error>)
    requires pos <= |toks|
    ensures r == Disjunction(toks, pos, [], castDate)
    decreases |toks| - pos, 3
  {
    var conds: seq<Condition> := [];
    var p := pos;
    while true
      invariant pos <= p <= |toks|
      invariant Disjunction(toks, pos, [], castDate) == Disjunction(toks, p, conds, castDate)
      decreases |toks| - p
    {
      var c := ParseConditionConjunction(toks, p, castDate);
      if c.Failure? {
        return Failure(c.error);
      }
      conds := conds + [c.value.value];
      if !At(toks, c.value.next, OR) {
        return Success(Parsed(Collapse(Or, conds), c.value.next));
      }
      p := c.value.next + 1;
    }
  }

  method ParseSelectWhere(toks: seq<Token>, pos: nat, castDate: string -> Value)
    returns (r: Result<Parsed<Option<Condition>>, Error>)
    requires pos <= |toks|
    ensures r == Where(toks, pos, castDate)
  {
    var conds: seq<Condition> := [];
    var p := pos;
    while At(toks, p, WHERE)
      invariant pos <= p <= |toks|
      invariant WhereClauses(toks, pos, [], castDate) == WhereClauses(toks, p, conds, castDate)
      decreases |toks| - p
    {
      var d := ParseConditionDisjunction(toks, p + 1, castDate);
      if d.Failure? {
        return Failure(d.error);
      }
      conds := conds + [d.value.value];
      p := d.value.next;
    }
    return Success(Parsed(CombineWheres(conds), p));
  }

  // ---------------------------------------------------------------------
  // whole queries

  /** A select query over the lexer's tokens for the query body followed by
      the `.` sentinel. */
  function SelectQuery(toks: seq<Token>, castDate: string -> Value): (r: Result<Query, Error>)
    ensures r.Success? ==> |r.value.projection| >= 1
    ensures r.Success? ==> !(r.value.projection == ["*"] && r.value.relations == [])
    ensures r.Success? && r.value.condition.Some? ==>
      WellFormed(r.value.condition.value) && PatternsAreStrings(r.value.condition.value)
  {
    var proj :- Projection(toks, 0);
    var rels :- From(toks, proj.next);
    var cond :- Where(toks, rels.next, castDate);
    var dot :- Choice(toks, cond.next, {DOT});
    if proj.value == ["*"] && rels.value == [] then Failure(StarWithoutFrom)
    else Success(Query(proj.value, rels.value, cond.value))
  }

  /** `_parse_select`: `lex` stands for the TSQL lexer. */
  method ParseSelect(querystring: string, lex: string -> seq<Token>, castDate: string -> Value)
    returns (r: Result<Query, Error>)
    ensures r == SelectQuery(lex(querystring + "."), castDate)
  {
    var toks := lex(querystring + ".");
    var proj := ParseSelectProjection(toks, 0);
    if proj.Failure? {
      return Failure(proj.error);
    }
    var rels := ParseSelectFrom(toks, proj.value.next);
    if rels.Failure? {
      return Failure(rels.error);
    }
    var cond := ParseSelectWhere(toks, rels.value.next, castDate);
    if cond.Failure? {
      return Failure(cond.error);
    }
    var dot := Choice(toks, cond.value.next, {DOT});
    if dot.Failure? {
      return Failure(dot.error);
    }
    if proj.value.value == ["*"] && rels.value.value == [] {
      return Failure(StarWithoutFrom);
    }
    return Success(Query(proj.value.value, rels.value.value, cond.value.value));
  }

  /** The query type: the lower-cased text before the first space. */
  function QueryType(querystring: string): string {
    Lower(Partition(LStrip(querystring), ' ').0)
  }

  /** `_parse_query`: only `select` and `retrieve` queries are supported. */
  function QueryFromString(querystring: string, lex: string -> seq<Token>, castDate: string -> Value): (r: Result<Query, Error>)
    ensures QueryType(querystring) !in {"select", "retrieve"} ==> r == Failure(UnsupportedQuery(QueryType(querystring)))
    ensures QueryType(querystring) in {"select", "retrieve"} ==>
      r == SelectQuery(lex(Partition(LStrip(querystring), ' ').1 + "."), castDate)
  {
    var (querytype, querybody) := Partition(LStrip(querystring), ' ');
    var qt := Lower(querytype);
    if qt == "select" || qt == "retrieve" then SelectQuery(lex(querybody + "."), castDate)
    else Failure(UnsupportedQuery(qt))
  }

  method ParseQuery(querystring: string, lex: string -> seq<Token>, castDate: string -> Value)
    returns (r: Result<Query, Error>)
    ensures r == QueryFromString(querystring, lex, castDate)
  {
    var (querytype, querybody) := Partition(LStrip(querystring), ' ');
    var qt := Lower(querytype);
    if qt == "select" || qt == "retrieve" {
      r := ParseSelect(querybody, lex, castDate);
    } else {
      r := Failure(UnsupportedQuery(qt));
    }
  }
}
