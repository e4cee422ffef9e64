/** The vocabulary of the TSQL query engine (delphin/tsql.py): cell values,
    the condition tree built by the parser, lexer tokens, and the errors the
    engine raises. */
module TsqlSyntax {

  /** A cell of a profile row as the engine compares it: Python `None`, an
      int, a str, or a date. Dates come from the external `tsdb.cast(':date', ...)`
      and are represented by a number that orders them. */
  datatype Value = Null | Int(i: int) | Str(s: string) | Date(d: int)

  /** The comparison operators after the parser has normalised `=` to `==`. */
  datatype CompOp = Eq | Ne | Lt | Le | Gt | Ge | Match | NoMatch

  datatype BoolOp = And | Or

  /** The condition tree: the source's `(op, (column, value))`,
      `('and'|'or', [...])` and `('not', cond)` tuples. */
  datatype Condition =
    | Comparison(op: CompOp, column: string, value: Value)
    | Junction(bop: BoolOp, children: seq<Condition>)
    | Negation(child: Condition)

  /** Every conjunction and disjunction built by the parser has at least two
      children: a one-element list is collapsed to its only member. */
  predicate WellFormed(c: Condition) {
    match c
    case Comparison(_, _, _) => true
    case Junction(_, cs) => |cs| >= 2 && forall i :: 0 <= i < |cs| ==> WellFormed(cs[i])
    case Negation(x) => WellFormed(x)
  }

  /** Regular-expression comparisons carry a string pattern. */
  predicate PatternsAreStrings(c: Condition) {
    match c
    case Comparison(op, _, v) => (op == Match || op == NoMatch) ==> v.Str?
    case Junction(_, cs) => forall i :: 0 <= i < |cs| ==> PatternsAreStrings(cs[i])
    case Negation(x) => PatternsAreStrings(x)
  }

  /** The column names a condition compares against, in tree order. */
  function ColumnsOf(c: Condition): (r: seq<string>)
  {
    match c
    case Comparison(_, col, _) => [col]
    case Junction(_, cs) => ColumnsOfAll(cs)
    case Negation(x) => ColumnsOf(x)
  }

  function ColumnsOfAll(cs: seq<Condition>): seq<string>
  {
    if cs == [] then [] else ColumnsOf(cs[0]) + ColumnsOfAll(cs[1..])
  }

  /** The token types of the TSQL lexer, in the order of its rule table. */
  datatype TokenType =
    | FROM | WHERE | REPORT | STAR | DOT | OP | AND | OR | NOT | LPAREN | RPAREN
    | DQSTRING | SQSTRING | YYYYMMDD | DDMMYY | KWDATE | INT | QID | ID | UNEXPECTED

  datatype Token = Token(typ: TokenType, text: string)

  /** TSQLSyntaxError, TSQLError and the Python errors the engine lets escape. */
  datatype Error =
    | UnexpectedToken(expected: set<TokenType>, position: nat)
    | InvalidInteger(text: string)
    | StarWithoutFrom
    | UnsupportedQuery(querytype: string)
    | UndefinedColumn(column: string)
    | CouldNotFindRelationToJoin(relations: set<string>)
    | InfiniteLoopDetected
    | InvalidJoinMethod
    | DuplicateJoin
    | NoSharedKeys
    | KeyError(key: string)
    | IndexError
    | TypeError
}
