/** Properties of the TSQL grammar that the module documentation of
    delphin/tsql.py promises: disjunction scopes over conjunction, repeated
    `where` clauses form a conjunction that scopes over disjunction, and
    `select` and `retrieve` are the same query type in any letter case. */
module TsqlParserLaws {
  import opened Wrappers
  import opened PyStrings
  import opened TsqlSyntax
  import opened TsqlParser

  // ---------------------------------------------------------------------
  // A parse depends only on the tokens it consumed and on whether the token
  // after them continues a conjunction or a disjunction.

  /** The tokens of `t1` in `[lo, hi)` reappear in `t2`, `off` positions on. */
  predicate Agree(t1: seq<Token>, t2: seq<Token>, off: int, lo: nat, hi: nat) {
    lo <= hi <= |t1| && 0 <= lo + off && hi + off <= |t2| &&
    forall j :: lo <= j < hi ==> t1[j] == t2[j + off]
  }

  /** The token at `n` in `t1`, and the one `off` positions on in `t2`, are
      both `and` or neither, and both `or` or neither. */
  predicate Follows(t1: seq<Token>, t2: seq<Token>, off: int, n: nat) {
    0 <= n + off && At(t1, n, AND) == At(t2, n + off, AND) && At(t1, n, OR) == At(t2, n + off, OR)
  }

  lemma StatementShift(column: string, t1: seq<Token>, p1: nat, t2: seq<Token>, off: int, cd: string -> Value, r: Parsed<Condition>)
    requires p1 <= |t1| && Statement(column, t1, p1, cd) == Success(r)
    requires Agree(t1, t2, off, p1, p1 + 2)
    ensures Statement(column, t2, p1 + off, cd) == Success(Parsed(r.value, p1 + off + 2))
  {
    assert t1[p1] == t2[p1 + off] && t1[p1 + 1] == t2[p1 + 1 + off];
  }

  lemma {:induction false} UnaryShift(t1: seq<Token>, p1: nat, t2: seq<Token>, off: int, cd: string -> Value, r: Parsed<Condition>)
    requires p1 <= |t1| && Unary(t1, p1, cd) == Success(r)
    requires Agree(t1, t2, off, p1, r.next) && Follows(t1, t2, off, r.next)
    ensures Unary(t2, p1 + off, cd) == Success(Parsed(r.value, r.next + off))
    decreases |t1| - p1, 1
  {
    assert t1[p1] == t2[p1 + off];
    var t := t1[p1];
    if t.typ == NOT || t.typ == LPAREN {
      var d := Disjunction(t1, p1 + 1, [], cd).value;
      assert d.next < r.next ==> t1[d.next] == t2[d.next + off];
      DisjunctionShift(t1, p1 + 1, [], t2, off, cd, d);
    } else {
      StatementShift(t.text, t1, p1 + 1, t2, off, cd, r);
    }
  }

  /** The conjunction loop continues after an operand followed by `and`. */
  lemma ConjunctionMore(t: seq<Token>, p: nat, conds: seq<Condition>, cd: string -> Value, u: Parsed<Condition>)
    requires p <= |t| && Unary(t, p, cd) == Success(u) && At(t, u.next, AND)
    ensures Conjunction(t, p, conds, cd) == Conjunction(t, u.next + 1, conds + [u.value], cd)
  {
  }

  /** The conjunction loop ends after an operand not followed by `and`. */
  lemma ConjunctionEnd(t: seq<Token>, p: nat, conds: seq<Condition>, cd: string -> Value, u: Parsed<Condition>)
    requires p <= |t| && Unary(t, p, cd) == Success(u) && !At(t, u.next, AND)
    ensures Conjunction(t, p, conds, cd) == Success(Parsed(Collapse(And, conds + [u.value]), u.next))
  {
  }

  /** The disjunction loop continues after a conjunction followed by `or`. */
  lemma DisjunctionMore(t: seq<Token>, p: nat, conds: seq<Condition>, cd: string -> Value, c: Parsed<Condition>)
    requires p <= |t| && Conjunction(t, p, [], cd) == Success(c) && At(t, c.next, OR)
    ensures Disjunction(t, p, conds, cd) == Disjunction(t, c.next + 1, conds + [c.value], cd)
  {
  }

  /** The disjunction loop ends after a conjunction not followed by `or`. */
  lemma DisjunctionEnd(t: seq<Token>, p: nat, conds: seq<Condition>, cd: string -> Value, c: Parsed<Condition>)
    requires p <= |t| && Conjunction(t, p, [], cd) == Success(c) && !At(t, c.next, OR)
    ensures Disjunction(t, p, conds, cd) == Success(Parsed(Collapse(Or, conds + [c.value]), c.next))
  {
  }

  lemma {:induction false} ConjunctionShift(t1: seq<Token>, p1: nat, conds: seq<Condition>, t2: seq<Token>, off: int, cd: string -> Value, r: Parsed<Condition>)
    requires p1 <= |t1| && Conjunction(t1, p1, conds, cd) == Success(r)
    requires Agree(t1, t2, off, p1, r.next) && Follows(t1, t2, off, r.next)
    ensures Conjunction(t2, p1 + off, conds, cd) == Success(Parsed(r.value, r.next + off))
    decreases |t1| - p1, 3
  {
    var u := Unary(t1, p1, cd).value;
    assert u.next < r.next ==> t1[u.next] == t2[u.next + off];
    UnaryShift(t1, p1, t2, off, cd, u);
    if At(t1, u.next, AND) {
      ConjunctionMore(t1, p1, conds, cd, u);
      ConjunctionShiftMore(t1, p1, conds, t2, off, cd, r, u);
    } else {
      ConjunctionEnd(t1, p1, conds, cd, u);
      ConjunctionEnd(t2, p1 + off, conds, cd, Parsed(u.value, u.next + off));
    }
  }

  /** The step of `ConjunctionShift` past an `and`. */
  lemma {:induction false} ConjunctionShiftMore(t1: seq<Token>, p1: nat, conds: seq<Condition>, t2: seq<Token>, off: int, cd: string -> Value,
                                                r: Parsed<Condition>, u: Parsed<Condition>)
    requires p1 <= |t1| && 0 <= p1 + off <= |t2|
    requires Unary(t1, p1, cd) == Success(u) && At(t1, u.next, AND)
    requires Unary(t2, p1 + off, cd) == Success(Parsed(u.value, u.next + off)) && At(t2, u.next + off, AND)
    requires Conjunction(t1, u.next + 1, conds + [u.value], cd) == Success(r)
    requires Agree(t1, t2, off, u.next + 1, r.next) && Follows(t1, t2, off, r.next)
    ensures Conjunction(t2, p1 + off, conds, cd) == Success(Parsed(r.value, r.next + off))
    decreases |t1| - p1, 2
  {
    ConjunctionShift(t1, u.next + 1, conds + [u.value], t2, off, cd, r);
    ConjunctionMore(t2, p1 + off, conds, cd, Parsed(u.value, u.next + off));
  }

  lemma {:induction false} DisjunctionShift(t1: seq<Token>, p1: nat, conds: seq<Condition>, t2: seq<Token>, off: int, cd: string -> Value, r: Parsed<Condition>)
    requires p1 <= |t1| && Disjunction(t1, p1, conds, cd) == Success(r)
    requires Agree(t1, t2, off, p1, r.next) && Follows(t1, t2, off, r.next)
    ensures Disjunction(t2, p1 + off, conds, cd) == Success(Parsed(r.value, r.next + off))
    decreases |t1| - p1, 5
  {
    var c := Conjunction(t1, p1, [], cd).value;
    assert c.next < r.next ==> t1[c.next] == t2[c.next + off];
    ConjunctionShift(t1, p1, [], t2, off, cd, c);
    if At(t1, c.next, OR) {
      DisjunctionMore(t1, p1, conds, cd, c);
      DisjunctionShiftMore(t1, p1, conds, t2, off, cd, r, c);
    } else {
      DisjunctionEnd(t1, p1, conds, cd, c);
      DisjunctionEnd(t2, p1 + off, conds, cd, Parsed(c.value, c.next + off));
    }
  }

  /** The step of `DisjunctionShift` past an `or`. */
  lemma {:induction false} DisjunctionShiftMore(t1: seq<Token>, p1: nat, conds: seq<Condition>, t2: seq<Token>, off: int, cd: string -> Value,
                                                r: Parsed<Condition>, c: Parsed<Condition>)
    requires p1 <= |t1| && 0 <= p1 + off <= |t2|
    requires Conjunction(t1, p1, [], cd) == Success(c) && At(t1, c.next, OR)
    requires Conjunction(t2, p1 + off, [], cd) == Success(Parsed(c.value, c.next + off)) && At(t2, c.next + off, OR)
    requires Disjunction(t1, c.next + 1, conds + [c.value], cd) == Success(r)
    requires Agree(t1, t2, off, c.next + 1, r.next) && Follows(t1, t2, off, r.next)
    ensures Disjunction(t2, p1 + off, conds, cd) == Success(Parsed(r.value, r.next + off))
    decreases |t1| - p1, 4
  {
    DisjunctionShift(t1, c.next + 1, conds + [c.value], t2, off, cd, r);
    DisjunctionMore(t2, p1 + off, conds, cd, Parsed(c.value, c.next + off));
  }

  // ---------------------------------------------------------------------
  // The documented equivalences, for tokens laid out in a sequence `t`

  const Dot := Token(DOT, ".")
  const WhereTok := Token(WHERE, "where")
  const AndTok := Token(AND, "and")
  const OrTok := Token(OR, "or")
  const LParen := Token(LPAREN, "(")
  const RParen := Token(RPAREN, ")")

  /** `t` holds the tokens `a` from position `p` on. */
  predicate Holds(t: seq<Token>, p: nat, a: seq<Token>) {
    p + |a| <= |t| && forall j :: 0 <= j < |a| ==> t[p + j] == a[j]
  }

  /** `a` is exactly one complete condition: parsing it, with the end-of-query
      sentinel after it, consumes all of it. */
  predicate CompleteCondition(a: seq<Token>, cd: string -> Value) {
    Disjunction(a + [Dot], 0, [], cd).Success? && Disjunction(a + [Dot], 0, [], cd).value.next == |a|
  }

  function ConditionOf(a: seq<Token>, cd: string -> Value): Condition
    requires CompleteCondition(a, cd)
  {
    Disjunction(a + [Dot], 0, [], cd).value.value
  }

  /** A complete condition placed anywhere, and followed by a token that
      neither continues a conjunction nor a disjunction, parses the same. */
  lemma PlaceCondition(a: seq<Token>, t: seq<Token>, p: nat, cd: string -> Value)
    requires CompleteCondition(a, cd)
    requires Holds(t, p, a) && p + |a| < |t| && t[p + |a|].typ !in {AND, OR}
    ensures Disjunction(t, p, [], cd) == Success(Parsed(ConditionOf(a, cd), p + |a|))
  {
    var ra := a + [Dot];
    assert forall j :: 0 <= j < |a| ==> ra[j] == t[j + p];
    assert ra[|a|] == Dot;
    DisjunctionShift(ra, 0, [], t, p, cd, Disjunction(ra, 0, [], cd).value);
  }

  /** Tokens `column op literal`: a single comparison. */
  predicate ComparisonTokens(a: seq<Token>, cd: string -> Value) {
    |a| == 3 && a[0].typ in IdTypes && Statement(a[0].text, a, 1, cd).Success?
  }

  function ComparisonOf(a: seq<Token>, cd: string -> Value): Condition
    requires ComparisonTokens(a, cd)
  {
    Statement(a[0].text, a, 1, cd).value.value
  }

  lemma PlaceComparison(a: seq<Token>, t: seq<Token>, p: nat, cd: string -> Value)
    requires ComparisonTokens(a, cd) && Holds(t, p, a)
    ensures Unary(t, p, cd) == Success(Parsed(ComparisonOf(a, cd), p + 3))
  {
    assert t[p] == a[0] && t[p + 1] == a[1] && t[p + 2] == a[2];
    StatementShift(a[0].text, a, 1, t, p, cd, Statement(a[0].text, a, 1, cd).value);
  }

  /** A parenthesised disjunction is one operand. */
  lemma Parenthesised(t: seq<Token>, p: nat, cd: string -> Value, d: Parsed<Condition>)
    requires p < |t| && t[p] == LParen && Disjunction(t, p + 1, [], cd) == Success(d)
    requires At(t, d.next, RPAREN)
    ensures Unary(t, p, cd) == Success(Parsed(d.value, d.next + 1))
  {
  }

  /** An operand not followed by `and` is a whole conjunction. */
  lemma AloneInConjunction(t: seq<Token>, p: nat, cd: string -> Value, u: Parsed<Condition>)
    requires p <= |t| && Unary(t, p, cd) == Success(u) && !At(t, u.next, AND)
    ensures Conjunction(t, p, [], cd) == Success(u)
  {
    ConjunctionEnd(t, p, [], cd, u);
    assert [] + [u.value] == [u.value];
  }

  /** A conjunction not followed by `or` is a whole disjunction. */
  lemma AloneInDisjunction(t: seq<Token>, p: nat, cd: string -> Value, c: Parsed<Condition>)
    requires p <= |t| && Conjunction(t, p, [], cd) == Success(c) && !At(t, c.next, OR)
    ensures Disjunction(t, p, [], cd) == Success(c)
  {
    DisjunctionEnd(t, p, [], cd, c);
    assert [] + [c.value] == [c.value];
  }

  /** `A and B`: two operands make a two-member conjunction. */
  lemma AndOfTwo(t: seq<Token>, p: nat, cd: string -> Value, u1: Parsed<Condition>, u2: Parsed<Condition>)
    requires p <= |t| && Unary(t, p, cd) == Success(u1)
    requires u1.next < |t| && t[u1.next] == AndTok && Unary(t, u1.next + 1, cd) == Success(u2)
    requires !At(t, u2.next, AND)
    ensures Conjunction(t, p, [], cd) == Success(Parsed(Junction(And, [u1.value, u2.value]), u2.next))
  {
    ConjunctionMore(t, p, [], cd, u1);
    ConjunctionEnd(t, u1.next + 1, [] + [u1.value], cd, u2);
    assert [] + [u1.value] + [u2.value] == [u1.value, u2.value];
  }

  /** `A or B`: two conjunctions make a two-member disjunction. */
  lemma OrOfTwo(t: seq<Token>, p: nat, cd: string -> Value, c1: Parsed<Condition>, c2: Parsed<Condition>)
    requires p <= |t| && Conjunction(t, p, [], cd) == Success(c1)
    requires c1.next < |t| && t[c1.next] == OrTok && Conjunction(t, c1.next + 1, [], cd) == Success(c2)
    requires !At(t, c2.next, OR)
    ensures Disjunction(t, p, [], cd) == Success(Parsed(Junction(Or, [c1.value, c2.value]), c2.next))
  {
    DisjunctionMore(t, p, [], cd, c1);
    DisjunctionEnd(t, c1.next + 1, [] + [c1.value], cd, c2);
    assert [] + [c1.value] + [c2.value] == [c1.value, c2.value];
  }

  /** One turn of the `where` loop. */
  lemma WhereStep(t: seq<Token>, p: nat, conds: seq<Condition>, cd: string -> Value, d: Parsed<Condition>)
    requires p < |t| && t[p] == WhereTok && Disjunction(t, p + 1, [], cd) == Success(d)
    ensures WhereClauses(t, p, conds, cd) == WhereClauses(t, d.next, conds + [d.value], cd)
  {
  }

  /** Tokens laid out as `where A where B .` */
  predicate TwoWheresLayout(t: seq<Token>, a: seq<Token>, b: seq<Token>) {
    |t| == |a| + |b| + 3 && t[0] == WhereTok && Holds(t, 1, a) && t[|a| + 1] == WhereTok &&
    Holds(t, |a| + 2, b) && t[|a| + |b| + 2] == Dot
  }

  /** Tokens laid out as `where ( A ) and ( B ) .` */
  predicate ParenthesisedAndLayout(t: seq<Token>, a: seq<Token>, b: seq<Token>) {
    |t| == |a| + |b| + 7 && t[0] == WhereTok && t[1] == LParen && Holds(t, 2, a) &&
    t[|a| + 2] == RParen && t[|a| + 3] == AndTok && t[|a| + 4] == LParen &&
    Holds(t, |a| + 5, b) && t[|a| + |b| + 5] == RParen && t[|a| + |b| + 6] == Dot
  }

  lemma TwoWheres(t: seq<Token>, a: seq<Token>, b: seq<Token>, cd: string -> Value)
    requires CompleteCondition(a, cd) && CompleteCondition(b, cd) && TwoWheresLayout(t, a, b)
    ensures Where(t, 0, cd) == Success(Parsed(Some(Junction(And, [ConditionOf(a, cd), ConditionOf(b, cd)])), |t| - 1))
  {
    var ca, cb := ConditionOf(a, cd), ConditionOf(b, cd);
    var na, nb := |a|, |b|;
    PlaceCondition(a, t, 1, cd);
    WhereStep(t, 0, [], cd, Parsed(ca, 1 + na));
    PlaceCondition(b, t, 2 + na, cd);
    WhereStep(t, 1 + na, [] + [ca], cd, Parsed(cb, 2 + na + nb));
    assert [] + [ca] + [cb] == [ca, cb];
  }

  lemma ParenthesisedAnd(t: seq<Token>, a: seq<Token>, b: seq<Token>, cd: string -> Value)
    requires CompleteCondition(a, cd) && CompleteCondition(b, cd) && ParenthesisedAndLayout(t, a, b)
    ensures Where(t, 0, cd) == Success(Parsed(Some(Junction(And, [ConditionOf(a, cd), ConditionOf(b, cd)])), |t| - 1))
  {
    var ca, cb := ConditionOf(a, cd), ConditionOf(b, cd);
    var na, nb := |a|, |b|;
    var j := Junction(And, [ca, cb]);
    PlaceCondition(a, t, 2, cd);
    Parenthesised(t, 1, cd, Parsed(ca, 2 + na));
    PlaceCondition(b, t, 5 + na, cd);
    Parenthesised(t, 4 + na, cd, Parsed(cb, 5 + na + nb));
    AndOfTwo(t, 1, cd, Parsed(ca, 3 + na), Parsed(cb, 6 + na + nb));
    AloneInDisjunction(t, 1, cd, Parsed(j, 6 + na + nb));
    WhereStep(t, 0, [], cd, Parsed(j, 6 + na + nb));
  }

  /** Several `where` clauses are a conjunction that scopes over
      disjunction: `where A where B` parses like `where (A) and (B)`, for
      any complete conditions A and B. */
  lemma WhereClausesConjoin(t1: seq<Token>, t2: seq<Token>, a: seq<Token>, b: seq<Token>, cd: string -> Value)
    requires CompleteCondition(a, cd) && CompleteCondition(b, cd)
    requires TwoWheresLayout(t1, a, b) && ParenthesisedAndLayout(t2, a, b)
    ensures Where(t1, 0, cd).Success? && Where(t2, 0, cd).Success?
    ensures Where(t1, 0, cd).value.value == Where(t2, 0, cd).value.value ==
            Some(Junction(And, [ConditionOf(a, cd), ConditionOf(b, cd)]))
  {
    TwoWheres(t1, a, b, cd);
    ParenthesisedAnd(t2, a, b, cd);
  }

  /** Tokens laid out as `A or B and C .` */
  predicate OrAndLayout(t: seq<Token>, a: seq<Token>, b: seq<Token>, c: seq<Token>) {
    |t| == 12 && Holds(t, 0, a) && t[3] == OrTok && Holds(t, 4, b) && t[7] == AndTok &&
    Holds(t, 8, c) && t[11] == Dot
  }

  /** Tokens laid out as `A or ( B and C ) .` */
  predicate OrParenthesisedAndLayout(t: seq<Token>, a: seq<Token>, b: seq<Token>, c: seq<Token>) {
    |t| == 14 && Holds(t, 0, a) && t[3] == OrTok && t[4] == LParen && Holds(t, 5, b) &&
    t[8] == AndTok && Holds(t, 9, c) && t[12] == RParen && t[13] == Dot
  }

  /** `B and C` for comparisons B and C, followed by a token other than `and`. */
  lemma ComparisonsAnd(t: seq<Token>, p: nat, b: seq<Token>, c: seq<Token>, cd: string -> Value)
    requires ComparisonTokens(b, cd) && ComparisonTokens(c, cd)
    requires p + 7 <= |t| && Holds(t, p, b) && t[p + 3] == AndTok && Holds(t, p + 4, c) && !At(t, p + 7, AND)
    ensures Conjunction(t, p, [], cd) == Success(Parsed(Junction(And, [ComparisonOf(b, cd), ComparisonOf(c, cd)]), p + 7))
  {
    PlaceComparison(b, t, p, cd);
    PlaceComparison(c, t, p + 4, cd);
    AndOfTwo(t, p, cd, Parsed(ComparisonOf(b, cd), p + 3), Parsed(ComparisonOf(c, cd), p + 7));
  }

  /** A comparison followed by `or`. */
  lemma ComparisonBeforeOr(t: seq<Token>, a: seq<Token>, cd: string -> Value)
    requires ComparisonTokens(a, cd) && Holds(t, 0, a) && 3 < |t| && t[3] == OrTok
    ensures Conjunction(t, 0, [], cd) == Success(Parsed(ComparisonOf(a, cd), 3))
  {
    PlaceComparison(a, t, 0, cd);
    AloneInConjunction(t, 0, cd, Parsed(ComparisonOf(a, cd), 3));
  }

  lemma OrAnd(t: seq<Token>, a: seq<Token>, b: seq<Token>, c: seq<Token>, cd: string -> Value)
    requires ComparisonTokens(a, cd) && ComparisonTokens(b, cd) && ComparisonTokens(c, cd)
    requires OrAndLayout(t, a, b, c)
    ensures Disjunction(t, 0, [], cd) == Success(Parsed(
      Junction(Or, [ComparisonOf(a, cd), Junction(And, [ComparisonOf(b, cd), ComparisonOf(c, cd)])]), 11))
  {
    var bc := Junction(And, [ComparisonOf(b, cd), ComparisonOf(c, cd)]);
    ComparisonBeforeOr(t, a, cd);
    ComparisonsAnd(t, 4, b, c, cd);
    OrOfTwo(t, 0, cd, Parsed(ComparisonOf(a, cd), 3), Parsed(bc, 11));
  }

  /** `( B and C )` for comparisons B and C, followed by a token other than
      `and`, is one conjunction. */
  lemma ParenthesisedComparisonsAnd(t: seq<Token>, p: nat, b: seq<Token>, c: seq<Token>, cd: string -> Value)
    requires ComparisonTokens(b, cd) && ComparisonTokens(c, cd)
    requires p + 9 <= |t| && t[p] == LParen && Holds(t, p + 1, b) && t[p + 4] == AndTok && Holds(t, p + 5, c)
    requires t[p + 8] == RParen && !At(t, p + 9, AND)
    ensures Conjunction(t, p, [], cd) == Success(Parsed(Junction(And, [ComparisonOf(b, cd), ComparisonOf(c, cd)]), p + 9))
  {
    var bc := Junction(And, [ComparisonOf(b, cd), ComparisonOf(c, cd)]);
    ComparisonsAnd(t, p + 1, b, c, cd);
    AloneInDisjunction(t, p + 1, cd, Parsed(bc, p + 8));
    Parenthesised(t, p, cd, Parsed(bc, p + 8));
    AloneInConjunction(t, p, cd, Parsed(bc, p + 9));
  }

  lemma OrParenthesisedAnd(t: seq<Token>, a: seq<Token>, b: seq<Token>, c: seq<Token>, cd: string -> Value)
    requires ComparisonTokens(a, cd) && ComparisonTokens(b, cd) && ComparisonTokens(c, cd)
    requires OrParenthesisedAndLayout(t, a, b, c)
    ensures Disjunction(t, 0, [], cd) == Success(Parsed(
      Junction(Or, [ComparisonOf(a, cd), Junction(And, [ComparisonOf(b, cd), ComparisonOf(c, cd)])]), 13))
  {
    var bc := Junction(And, [ComparisonOf(b, cd), ComparisonOf(c, cd)]);
    ComparisonBeforeOr(t, a, cd);
    ParenthesisedComparisonsAnd(t, 4, b, c, cd);
    OrOfTwo(t, 0, cd, Parsed(ComparisonOf(a, cd), 3), Parsed(bc, 13));
  }

  /** Disjunction scopes over conjunction: for comparisons A, B and C,
      `A or B and C` parses like `A or (B and C)`. */
  lemma OrScopesOverAnd(t1: seq<Token>, t2: seq<Token>, a: seq<Token>, b: seq<Token>, c: seq<Token>, cd: string -> Value)
    requires ComparisonTokens(a, cd) && ComparisonTokens(b, cd) && ComparisonTokens(c, cd)
    requires OrAndLayout(t1, a, b, c) && OrParenthesisedAndLayout(t2, a, b, c)
    ensures Disjunction(t1, 0, [], cd).Success? && Disjunction(t2, 0, [], cd).Success?
    ensures Disjunction(t1, 0, [], cd).value.value == Disjunction(t2, 0, [], cd).value.value ==
            Junction(Or, [ComparisonOf(a, cd), Junction(And, [ComparisonOf(b, cd), ComparisonOf(c, cd)])])
  {
    OrAnd(t1, a, b, c, cd);
    OrParenthesisedAnd(t2, a, b, c, cd);
  }

  /** `select` and `retrieve` name the same query, in any letter case. */
  lemma SelectKeyword(w: string, body: string, lex: string -> seq<Token>, cd: string -> Value)
    requires Lower(w) == "select" || Lower(w) == "retrieve"
    ensures QueryFromString(w + " " + body, lex, cd) == SelectQuery(lex(body + "."), cd)
  {
    var s := w + " " + body;
    assert ' ' !in w by {
      forall i | 0 <= i < |w| ensures w[i] != ' ' {
        assert Lower(w)[i] == LowerChar(w[i]);
      }
    }
    assert s[0] == w[0] && !IsSpace(s[0]) by {
      assert Lower(w)[0] == LowerChar(w[0]);
    }
    assert LStrip(s) == s;
    PartitionAt(w, body, ' ');
  }

  /** A `*` projection with no `from` clause is never a valid query. */
  lemma StarRequiresFrom(toks: seq<Token>, cd: string -> Value)
    requires |toks| >= 1 && toks[0] == Token(STAR, "*") && !At(toks, 1, FROM)
    ensures SelectQuery(toks, cd).Failure?
  {
  }
}
