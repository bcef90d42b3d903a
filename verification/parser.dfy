/** The recursive-descent parser: `print` and expression statements over the
    precedence levels equality > comparison > term > factor > unary > primary.
    The first syntax error is reported and aborts the whole parse. */
module Parser {
  import opened Wrappers
  import opened Values
  import opened Tokens
  import opened Ast

  /** The error reported to the host's parse-error callback, then thrown. */
  datatype ParseError = ParseError(token: Token, message: string)

  /** A parsed node and the cursor just past it. */
  datatype Parsed<T> = Parsed(value: T, next: nat)

  type ParseResult<T> = Result<Parsed<T>, ParseError>

  /** The token list the scanner hands over: it ends in an end-of-input token. */
  predicate EndsWithEof(toks: seq<Token>) {
    |toks| > 0 && toks[|toks| - 1].kind == Eof
  }

  // ---------------------------------------------------------------------------
  // Cursor primitives

  predicate AtEnd(toks: seq<Token>, pos: nat)
    requires pos < |toks|
  {
    toks[pos].kind == Eof
  }

  /** `check`: never true at end of input. */
  predicate Check(toks: seq<Token>, pos: nat, kind: TokenType)
    requires pos < |toks|
  {
    !AtEnd(toks, pos) && toks[pos].kind == kind
  }

  /** `match` over several kinds: some `check` succeeds, and then the cursor
      moves on. */
  predicate MatchAny(toks: seq<Token>, pos: nat, kinds: seq<TokenType>)
    requires pos < |toks|
  {
    !AtEnd(toks, pos) && toks[pos].kind in kinds
  }

  /** `advance`: the cursor never moves past an end-of-input token. */
  function Advance(toks: seq<Token>, pos: nat): (p: nat)
    requires EndsWithEof(toks) && pos < |toks|
    ensures p < |toks|
    ensures AtEnd(toks, pos) ==> p == pos
    ensures !AtEnd(toks, pos) ==> p == pos + 1
  {
    if AtEnd(toks, pos) then pos else pos + 1
  }

  /** `consume`: step over the expected kind, or fail at the current token. */
  function Consume(toks: seq<Token>, pos: nat, kind: TokenType, message: string): (r: Result<nat, ParseError>)
    requires EndsWithEof(toks) && pos < |toks|
    ensures r.Success? <==> Check(toks, pos, kind)
    ensures r.Success? ==> r.value == pos + 1 && r.value < |toks|
    ensures r.Failure? ==> r.error == ParseError(toks[pos], message)
  {
    if Check(toks, pos, kind) then Success(Advance(toks, pos))
    else Failure(ParseError(toks[pos], message))
  }

  // ---------------------------------------------------------------------------
  // Precedence levels

  /** The operators of the binary levels: 4 equality, 3 comparison, 2 term,
      1 factor. Level 0 stands for unary and primary expressions. */
  function Operators(level: nat): seq<TokenType>
    requires 1 <= level <= 4
  {
    if level == 4 then [BangEqual, EqualEqual]
    else if level == 3 then [Greater, GreaterEqual, Less, LessEqual]
    else if level == 2 then [Minus, Plus]
    else [Slash, Star]
  }

  /** None of the operators of levels 1 to `level` is at `pos`: a parse of
      that level cannot go on from there. */
  predicate NoOperatorUpTo(toks: seq<Token>, pos: nat, level: nat)
    requires level <= 4
  {
    pos < |toks| && forall j :: 1 <= j <= level ==> !MatchAny(toks, pos, Operators(j))
  }

  /** The trees the grammar derives at each level. A binary node at a level
      carries one of that level's operators, a left operand of the same level
      and a right operand of the level below: so trees are left-associative
      and tighter operators sit deeper. */
  predicate AtLevel(e: Expr, level: nat)
    requires level <= 4
    decreases e, level
  {
    if level == 0 then
      match e
      case Unary(op, operand) => op.kind in [Bang, Minus] && AtLevel(operand, 0)
      case Literal(_) => true
      case Grouping(inner) => AtLevel(inner, 4)
      case _ => false
    else
      || (e.Binary? && e.operator.kind in Operators(level) && AtLevel(e.left, level) && AtLevel(e.right, level - 1))
      || AtLevel(e, level - 1)
  }

  /** The token kinds a primary expression can start with. */
  const PrimaryStarts: seq<TokenType> := [KwFalse, KwTrue, KwNil, NumberLit, StringLit, LeftParen]

  // ---------------------------------------------------------------------------
  // Which tokens a tree comes from

  /** A literal node and the one token it is read from. */
  predicate LiteralToken(t: Token, v: Value) {
    || (t.kind == KwFalse && v == Bool(false))
    || (t.kind == KwTrue && v == Bool(true))
    || (t.kind == KwNil && v == Nil)
    || ((t.kind == NumberLit || t.kind == StringLit) && v == t.literal)
  }

  /** `ts` is exactly the token run that spells `e`: a literal is its one
      token, a grouping is `(`, the inner run and `)`, a unary node is its
      operator token followed by the operand's run, and a binary node is the
      left run, its operator token and the right run. */
  ghost predicate Yields(ts: seq<Token>, e: Expr)
    decreases e
  {
    match e
    case Literal(v) => |ts| == 1 && LiteralToken(ts[0], v)
    case Grouping(inner) =>
      && 2 <= |ts| && ts[0].kind == LeftParen && ts[|ts| - 1].kind == RightParen
      && Yields(ts[1..|ts| - 1], inner)
    case Unary(op, operand) => 1 <= |ts| && ts[0] == op && Yields(ts[1..], operand)
    case Binary(left, op, right) =>
      exists k :: 0 < k < |ts| && ts[k] == op && Yields(ts[..k], left) && Yields(ts[k + 1..], right)
    case Variable(_) => false
    case Assign(_, _) => false
  }

  lemma LiteralYields(toks: seq<Token>, a: nat, v: Value)
    requires a < |toks| && LiteralToken(toks[a], v)
    ensures Yields(toks[a..a + 1], Literal(v))
  {
    assert toks[a..a + 1][0] == toks[a];
  }

  lemma GroupingYields(toks: seq<Token>, a: nat, b: nat, inner: Expr)
    requires a + 1 < b <= |toks| && toks[a].kind == LeftParen && toks[b - 1].kind == RightParen
    requires Yields(toks[a + 1..b - 1], inner)
    ensures Yields(toks[a..b], Grouping(inner))
  {
    var ts := toks[a..b];
    assert |ts| == b - a;
    var inside, run := ts[1..|ts| - 1], toks[a + 1..b - 1];
    assert |inside| == |run| && forall i :: 0 <= i < |inside| ==> inside[i] == run[i];
    assert inside == run;
  }

  lemma UnaryYields(toks: seq<Token>, a: nat, b: nat, operand: Expr)
    requires a < b <= |toks| && Yields(toks[a + 1..b], operand)
    ensures Yields(toks[a..b], Unary(toks[a], operand))
  {
    var ts := toks[a..b];
    assert ts[1..] == toks[a + 1..b];
  }

  lemma BinaryYields(toks: seq<Token>, a: nat, k: nat, b: nat, left: Expr, right: Expr)
    requires a < k < b <= |toks|
    requires Yields(toks[a..k], left) && Yields(toks[k + 1..b], right)
    ensures Yields(toks[a..b], Binary(left, toks[k], right))
  {
    var ts := toks[a..b];
    assert ts[k - a] == toks[k];
    assert ts[..k - a] == toks[a..k];
    assert ts[k - a + 1..] == toks[k + 1..b];
  }

  /** `left` sits at the bottom of the left spine of `e`: `e` is `left` with
      zero or more binary nodes built on top of it, each taking the tree so far
      as its left operand. */
  predicate LeftSpine(e: Expr, left: Expr)
    decreases e
  {
    e == left || (e.Binary? && LeftSpine(e.left, left))
  }

  // ---------------------------------------------------------------------------
  // Expressions

  /** `expression`, which is `equality`. */
  function Expression(toks: seq<Token>, pos: nat): (r: ParseResult<Expr>)
    requires EndsWithEof(toks) && pos < |toks|
    ensures r.Success? ==> && pos < r.value.next < |toks| && AtLevel(r.value.value, 4)
                           && Yields(toks[pos..(r.value.next)], r.value.value)
    ensures r.Success? ==> NoOperatorUpTo(toks, r.value.next, 4)
    decreases |toks| - pos, 5, 0
  {
    BinaryLevel(toks, pos, 4)
  }

  /** `equality`, `comparison`, `term` and `factor`: an operand of the level
      below, then the level's loop. */
  function BinaryLevel(toks: seq<Token>, pos: nat, level: nat): (r: ParseResult<Expr>)
    requires EndsWithEof(toks) && pos < |toks| && 1 <= level <= 4
    ensures r.Success? ==> && pos < r.value.next < |toks| && AtLevel(r.value.value, level)
                           && Yields(toks[pos..(r.value.next)], r.value.value)
    ensures r.Success? ==> NoOperatorUpTo(toks, r.value.next, level)
    decreases |toks| - pos, level, 1
  {
    var left :- Operand(toks, pos, level);
    LevelLoop(toks, pos, left.value, left.next, level)
  }

  /** The operand parser of a binary level: the next level down. */
  function Operand(toks: seq<Token>, pos: nat, level: nat): (r: ParseResult<Expr>)
    requires EndsWithEof(toks) && pos < |toks| && 1 <= level <= 4
    ensures r.Success? ==> && pos < r.value.next < |toks| && AtLevel(r.value.value, level - 1)
                           && Yields(toks[pos..(r.value.next)], r.value.value)
    ensures r.Success? ==> NoOperatorUpTo(toks, r.value.next, level - 1)
    decreases |toks| - pos, level, 0
  {
    if level == 1 then UnaryExpr(toks, pos) else BinaryLevel(toks, pos, level - 1)
  }

  /** The `while (match(...))` loop of a binary level: each operator found folds
      the tree so far, read from `toks[start..pos]`, into the left operand of a
      new node. */
  function LevelLoop(toks: seq<Token>, start: nat, left: Expr, pos: nat, level: nat): (r: ParseResult<Expr>)
    requires EndsWithEof(toks) && start < pos < |toks| && 1 <= level <= 4
    requires AtLevel(left, level) && Yields(toks[start..pos], left)
    ensures r.Success? ==> && pos <= r.value.next < |toks| && AtLevel(r.value.value, level)
                           && Yields(toks[start..(r.value.next)], r.value.value)
    ensures !MatchAny(toks, pos, Operators(level)) ==> r == Success(Parsed(left, pos))
    ensures r.Success? ==> LeftSpine(r.value.value, left)
    ensures NoOperatorUpTo(toks, pos, level - 1) && r.Success? ==> NoOperatorUpTo(toks, r.value.next, level)
    ensures MatchAny(toks, pos, Operators(level)) && r.Success? ==>
              r.value.value.Binary? && r.value.value.operator.kind in Operators(level)
    decreases |toks| - pos, level, 2
  {
    if MatchAny(toks, pos, Operators(level)) then
      var operator := toks[pos];
      var right :- Operand(toks, Advance(toks, pos), level);
      var node := Binary(left, operator, right.value);
      BinaryYields(toks, start, pos, right.next, left, right.value);
      var folded := LevelLoop(toks, start, node, right.next, level);
      if folded.Success? then SpineExtends(folded.value.value, node); folded else folded
    else
      Success(Parsed(left, pos))
  }

  /** A spine over a binary node is also a spine over its left operand. */
  lemma {:induction false} SpineExtends(e: Expr, node: Expr)
    requires node.Binary? && LeftSpine(e, node)
    ensures LeftSpine(e, node.left)
    decreases e
  {
    if e != node {
      SpineExtends(e.left, node);
    }
  }

  /** `unary`: `!` and `-` nest to the right. */
  function UnaryExpr(toks: seq<Token>, pos: nat): (r: ParseResult<Expr>)
    requires EndsWithEof(toks) && pos < |toks|
    ensures r.Success? ==> && pos < r.value.next < |toks| && AtLevel(r.value.value, 0)
                           && Yields(toks[pos..(r.value.next)], r.value.value)
    decreases |toks| - pos, 0, 2
  {
    if MatchAny(toks, pos, [Bang, Minus]) then
      var operator := toks[pos];
      var operand :- UnaryExpr(toks, Advance(toks, pos));
      UnaryYields(toks, pos, operand.next, operand.value);
      Success(Parsed(Unary(operator, operand.value), operand.next))
    else
      Primary(toks, pos)
  }

  /** `primary`: literals and parenthesised groupings. */
  function Primary(toks: seq<Token>, pos: nat): (r: ParseResult<Expr>)
    requires EndsWithEof(toks) && pos < |toks|
    ensures r.Success? ==> && pos < r.value.next < |toks| && AtLevel(r.value.value, 0)
                           && Yields(toks[pos..(r.value.next)], r.value.value)
    ensures r.Success? ==> r.value.value.Literal? || r.value.value.Grouping?
    ensures (AtEnd(toks, pos) || toks[pos].kind !in PrimaryStarts) ==>
              r == Failure(ParseError(toks[pos], "Expected expression."))
    decreases |toks| - pos, 0, 1
  {
    if Check(toks, pos, KwFalse) then LiteralAt(toks, pos, Bool(false))
    else if Check(toks, pos, KwTrue) then LiteralAt(toks, pos, Bool(true))
    else if Check(toks, pos, KwNil) then LiteralAt(toks, pos, Nil)
    else if MatchAny(toks, pos, [NumberLit, StringLit]) then LiteralAt(toks, pos, toks[pos].literal)
    else if Check(toks, pos, LeftParen) then GroupingAt(toks, pos)
    else Failure(ParseError(toks[pos], "Expected expression."))
  }

  /** The grouping branch of `primary`: an expression, then the closing parenthesis. */
  function GroupingAt(toks: seq<Token>, pos: nat): (r: ParseResult<Expr>)
    requires EndsWithEof(toks) && pos < |toks| && Check(toks, pos, LeftParen)
    ensures r.Success? ==> && pos < r.value.next < |toks| && r.value.value.Grouping? && AtLevel(r.value.value, 0)
                           && Yields(toks[pos..(r.value.next)], r.value.value)
    ensures Expression(toks, pos + 1).Failure? ==> r == Failure(Expression(toks, pos + 1).error)
    ensures Expression(toks, pos + 1).Success? && Check(toks, Expression(toks, pos + 1).value.next, RightParen) ==>
              r == Success(Parsed(Grouping(Expression(toks, pos + 1).value.value), Expression(toks, pos + 1).value.next + 1))
    ensures Expression(toks, pos + 1).Success? && !Check(toks, Expression(toks, pos + 1).value.next, RightParen) ==>
              r == Failure(ParseError(toks[Expression(toks, pos + 1).value.next], "Expected ')' after expression."))
    decreases |toks| - pos, 0, 0
  {
    var inner :- Expression(toks, pos + 1);
    var close :- Consume(toks, inner.next, RightParen, "Expected ')' after expression.");
    GroupingYields(toks, pos, close, inner.value);
    Success(Parsed(Grouping(inner.value), close))
  }

  /** A literal node read from the one token at `pos`. */
  function LiteralAt(toks: seq<Token>, pos: nat, v: Value): (r: ParseResult<Expr>)
    requires EndsWithEof(toks) && pos < |toks| && !AtEnd(toks, pos) && LiteralToken(toks[pos], v)
    ensures r == Success(Parsed(Literal(v), pos + 1)) && pos + 1 < |toks|
    ensures Yields(toks[pos..pos + 1], Literal(v))
  {
    LiteralYields(toks, pos, v);
    Success(Parsed(Literal(v), pos + 1))
  }

  // ---------------------------------------------------------------------------
  // Statements

  /** `ts` is exactly the token run that spells statement `s`: `print`, the
      expression's run and `;`, or the expression's run and `;`. */
  ghost predicate StmtYields(ts: seq<Token>, s: Stmt) {
    match s
    case PrintStmt(e) =>
      2 <= |ts| && ts[0].kind == KwPrint && ts[|ts| - 1].kind == Semicolon && Yields(ts[1..|ts| - 1], e)
    case ExprStmt(e) => 1 <= |ts| && ts[|ts| - 1].kind == Semicolon && Yields(ts[..|ts| - 1], e)
    case _ => false
  }

  /** `ts` splits into consecutive runs, one per statement of `ss`, in order. */
  ghost predicate StmtsYield(ts: seq<Token>, ss: seq<Stmt>)
    decreases |ss|
  {
    || (|ss| == 0 && |ts| == 0)
    || (|ss| > 0 && exists k :: 0 < k <= |ts| && StmtYields(ts[..k], ss[0]) && StmtsYield(ts[k..], ss[1..]))
  }

  /** When the expression parses but the next token is not `;`, the error is
      reported at that token. */
  predicate SemicolonExpected(toks: seq<Token>, pos: nat, r: ParseResult<Stmt>)
    requires EndsWithEof(toks) && pos < |toks|
  {
    var e := Expression(toks, pos);
    e.Success? && !Check(toks, e.value.next, Semicolon) ==>
      r == Failure(ParseError(toks[e.value.next], "Expected ';' after value."))
  }

  /** The statement holds the expression parsed at `pos` and ends on the `;`
      right after it; a failing expression is the statement's failure, and an
      expression followed by `;` always makes a statement. */
  predicate HoldsExpression(toks: seq<Token>, pos: nat, r: ParseResult<Stmt>)
    requires EndsWithEof(toks) && pos < |toks|
  {
    var e := Expression(toks, pos);
    && (e.Failure? ==> r == Failure(e.error))
    && (e.Success? && Check(toks, e.value.next, Semicolon) ==> r.Success?)
    && (r.Success? ==> && e.Success? && (r.value.value.ExprStmt? || r.value.value.PrintStmt?)
                       && r.value.value.expression == e.value.value
                       && r.value.next == e.value.next + 1 && toks[e.value.next].kind == Semicolon)
  }

  /** A statement as the grammar of this parser derives it. */
  predicate ParsedStatement(s: Stmt) {
    (s.ExprStmt? || s.PrintStmt?) && AtLevel(s.expression, 4)
  }

  /** `statement`: a `print` statement or an expression statement. */
  function Statement(toks: seq<Token>, pos: nat): (r: ParseResult<Stmt>)
    requires EndsWithEof(toks) && pos < |toks|
    ensures r.Success? ==> && pos < r.value.next < |toks| && ParsedStatement(r.value.value)
                           && StmtYields(toks[pos..(r.value.next)], r.value.value)
    ensures r.Success? ==> (r.value.value.PrintStmt? <==> Check(toks, pos, KwPrint))
    decreases |toks| - pos, 6, 0
  {
    if Check(toks, pos, KwPrint) then
      var s := PrintStatement(toks, pos + 1);
      if s.Success? then PrintYields(toks, pos, s.value.next, s.value.value.expression); s else s
    else
      var s := ExpressionStatement(toks, pos);
      if s.Success? then ExprStmtYields(toks, pos, s.value.next, s.value.value.expression); s else s
  }

  /** A statement parses exactly when the expression after the optional
      `print` parses and a `;` follows it; it then holds that expression, and
      otherwise fails with the expression's error or the missing `;`. */
  lemma StatementParses(toks: seq<Token>, pos: nat)
    requires EndsWithEof(toks) && pos < |toks|
    ensures var start := if Check(toks, pos, KwPrint) then pos + 1 else pos;
      && start < |toks|
      && HoldsExpression(toks, start, Statement(toks, pos))
      && SemicolonExpected(toks, start, Statement(toks, pos))
  {
  }

  lemma PrintYields(toks: seq<Token>, a: nat, b: nat, e: Expr)
    requires a + 1 < b <= |toks| && toks[a].kind == KwPrint && toks[b - 1].kind == Semicolon
    requires Yields(toks[a + 1..b - 1], e)
    ensures StmtYields(toks[a..b], PrintStmt(e))
  {
    var ts := toks[a..b];
    assert |ts| == b - a;
    var inside, run := ts[1..|ts| - 1], toks[a + 1..b - 1];
    assert |inside| == |run| && forall i :: 0 <= i < |inside| ==> inside[i] == run[i];
    assert inside == run;
  }

  lemma ExprStmtYields(toks: seq<Token>, a: nat, b: nat, e: Expr)
    requires a < b <= |toks| && toks[b - 1].kind == Semicolon
    requires Yields(toks[a..b - 1], e)
    ensures StmtYields(toks[a..b], ExprStmt(e))
  {
    var ts := toks[a..b];
    assert ts[..|ts| - 1] == toks[a..b - 1];
  }

  /** `printStatement`: an expression and the closing `;`. */
  function PrintStatement(toks: seq<Token>, pos: nat): (r: ParseResult<Stmt>)
    requires EndsWithEof(toks) && pos < |toks|
    ensures r.Success? ==> && pos < r.value.next < |toks| && toks[r.value.next - 1].kind == Semicolon
                           && r.value.value.PrintStmt? && AtLevel(r.value.value.expression, 4)
                           && Yields(toks[pos..(r.value.next - 1)], r.value.value.expression)
    ensures HoldsExpression(toks, pos, r) && SemicolonExpected(toks, pos, r)
  {
    var value :- Expression(toks, pos);
    var next :- Consume(toks, value.next, Semicolon, "Expected ';' after value.");
    Success(Parsed(PrintStmt(value.value), next))
  }

  /** `expressionStatement`: an expression and the closing `;`. */
  function ExpressionStatement(toks: seq<Token>, pos: nat): (r: ParseResult<Stmt>)
    requires EndsWithEof(toks) && pos < |toks|
    ensures r.Success? ==> && pos < r.value.next < |toks| && toks[r.value.next - 1].kind == Semicolon
                           && r.value.value.ExprStmt? && AtLevel(r.value.value.expression, 4)
                           && Yields(toks[pos..(r.value.next - 1)], r.value.value.expression)
    ensures HoldsExpression(toks, pos, r) && SemicolonExpected(toks, pos, r)
  {
    var value :- Expression(toks, pos);
    var next :- Consume(toks, value.next, Semicolon, "Expected ';' after value.");
    Success(Parsed(ExprStmt(value.value), next))
  }

  /** `ss` are the statements `statement` parses one after another from
      `pos`, each starting where the one before it ended and none at an
      end-of-input token; the last one ends at `e`. */
  ghost predicate Runs(toks: seq<Token>, pos: nat, ss: seq<Stmt>, e: nat)
    requires EndsWithEof(toks)
    decreases |ss|
  {
    || (|ss| == 0 && pos == e)
    || (&& |ss| > 0 && pos < |toks| && !AtEnd(toks, pos) && Statement(toks, pos).Success?
        && Statement(toks, pos).value.value == ss[0]
        && Runs(toks, Statement(toks, pos).value.next, ss[1..], e))
  }

  /** The contract of the `parse` loop from `pos`: on success the statements
      already parsed are kept as a prefix, and the new ones are statements of
      the grammar, parsed one after another from `pos` up to an end-of-input
      token, whose runs spell those tokens in order; on failure, the
      statements from `pos` parsed one after another up to some statement,
      and the error is the one that statement failed with. */
  ghost predicate ParsesTo(toks: seq<Token>, pos: nat, parsed: seq<Stmt>, r: Result<seq<Stmt>, ParseError>)
    requires EndsWithEof(toks) && pos < |toks|
  {
    && (r.Success? ==> parsed <= r.value)
    && (r.Success? ==> forall i :: |parsed| <= i < |r.value| ==> ParsedStatement(r.value[i]))
    && (r.Success? ==> exists e :: && pos <= e < |toks| && AtEnd(toks, e)
                                  && Runs(toks, pos, r.value[|parsed|..], e)
                                  && StmtsYield(toks[pos..e], r.value[|parsed|..]))
    && (r.Failure? ==> exists q: nat, ss: seq<Stmt> :: && pos <= q < |toks| && Runs(toks, pos, ss, q)
                                       && !AtEnd(toks, q) && StatementFails(toks, q, r.error))
  }

  /** The loop of `parse` from `pos`, with the statements parsed so far. */
  function ParseFrom(toks: seq<Token>, pos: nat, parsed: seq<Stmt>): (r: Result<seq<Stmt>, ParseError>)
    requires EndsWithEof(toks) && pos < |toks|
    ensures ParsesTo(toks, pos, parsed, r)
    ensures !AtEnd(toks, pos) && Statement(toks, pos).Failure? ==> r == Failure(Statement(toks, pos).error)
    decreases |toks| - pos
  {
    if AtEnd(toks, pos) then
      assert toks[pos..pos] == [] && parsed[|parsed|..] == [];
      assert Runs(toks, pos, [], pos);
      Success(parsed)
    else
      match Statement(toks, pos)
      case Failure(err) =>
        assert Runs(toks, pos, [], pos);
        Failure(err)
      case Success(s) =>
        var rest := ParseFrom(toks, s.next, parsed + [s.value]);
        if rest.Success? then ParseFromSucceeds(toks, pos, s, parsed, rest.value); rest
        else ParseFromFails(toks, pos, s, parsed, rest.error); rest
  }

  /** The statement at `q` fails with `err`. */
  predicate StatementFails(toks: seq<Token>, q: nat, err: ParseError)
    requires EndsWithEof(toks) && q < |toks|
  {
    Statement(toks, q) == Failure(err)
  }

  /** One statement parsed at `pos`, then the rest of the loop succeeding. */
  lemma ParseFromSucceeds(toks: seq<Token>, pos: nat, s: Parsed<Stmt>, parsed: seq<Stmt>, all: seq<Stmt>)
    requires EndsWithEof(toks) && pos < |toks| && !AtEnd(toks, pos)
    requires Statement(toks, pos) == Success(s)
    requires ParsesTo(toks, s.next, parsed + [s.value], Success(all))
    ensures ParsesTo(toks, pos, parsed, Success(all))
  {
    StepStatements(parsed, s.value, all);
    var e :| && s.next <= e < |toks| && AtEnd(toks, e)
             && Runs(toks, s.next, all[|parsed| + 1..], e)
             && StmtsYield(toks[s.next..e], all[|parsed| + 1..]);
    var mine := all[|parsed|..];
    assert mine[0] == s.value && mine[1..] == all[|parsed| + 1..];
    StmtsYieldCons(toks, pos, s.next, e, s.value, mine);
    assert Runs(toks, pos, mine, e);
  }

  /** One statement parsed at `pos`, then the rest of the loop failing. */
  lemma ParseFromFails(toks: seq<Token>, pos: nat, s: Parsed<Stmt>, parsed: seq<Stmt>, err: ParseError)
    requires EndsWithEof(toks) && pos < |toks| && !AtEnd(toks, pos)
    requires Statement(toks, pos) == Success(s)
    requires ParsesTo(toks, s.next, parsed + [s.value], Failure(err))
    ensures ParsesTo(toks, pos, parsed, Failure(err))
  {
    var q, ss :| && s.next <= q < |toks| && Runs(toks, s.next, ss, q)
                 && !AtEnd(toks, q) && StatementFails(toks, q, err);
    var mine := [s.value] + ss;
    assert mine[0] == s.value && mine[1..] == ss;
    assert Runs(toks, pos, mine, q);
  }

  lemma StepStatements(parsed: seq<Stmt>, s: Stmt, all: seq<Stmt>)
    requires parsed + [s] <= all && ParsedStatement(s)
    requires forall i :: |parsed| + 1 <= i < |all| ==> ParsedStatement(all[i])
    ensures parsed <= all && forall i :: |parsed| <= i < |all| ==> ParsedStatement(all[i])
  {
    assert all[|parsed|] == (parsed + [s])[|parsed|];
  }

  /** A statement's run followed by the runs of the rest spells them all. */
  lemma StmtsYieldCons(toks: seq<Token>, a: nat, m: nat, e: nat, s: Stmt, ss: seq<Stmt>)
    requires a < m <= e <= |toks| && |ss| > 0 && ss[0] == s
    requires StmtYields(toks[a..m], s) && StmtsYield(toks[m..e], ss[1..])
    ensures StmtsYield(toks[a..e], ss)
  {
    var ts := toks[a..e];
    assert ts[..m - a] == toks[a..m];
    assert ts[m - a..] == toks[m..e];
    assert StmtYields(ts[..m - a], ss[0]) && StmtsYield(ts[m - a..], ss[1..]);
  }

  /** `parse`: all statements up to end of input, or the first syntax error.
      A successful parse spells the tokens up to an end-of-input token, one
      run per statement, in order. */
  function Parse(toks: seq<Token>): (r: Result<seq<Stmt>, ParseError>)
    requires EndsWithEof(toks)
    ensures r.Success? ==> forall i :: 0 <= i < |r.value| ==> ParsedStatement(r.value[i])
    ensures r.Success? ==> exists e: nat :: e < |toks| && AtEnd(toks, e) && Runs(toks, 0, r.value, e)
                                           && StmtsYield(toks[..e], r.value)
    ensures r.Failure? ==> exists q: nat, ss: seq<Stmt> :: q < |toks| && Runs(toks, 0, ss, q) && !AtEnd(toks, q)
                                                && StatementFails(toks, q, r.error)
    ensures AtEnd(toks, 0) ==> r == Success([])
  {
    var all := ParseFrom(toks, 0, []);
    assert all.Success? ==> all.value[0..] == all.value;
    assert toks[0..] == toks;
    assert forall e :: 0 <= e <= |toks| ==> toks[0..e] == toks[..e];
    all
  }

  // ---------------------------------------------------------------------------
  // Properties

  /** The literal keywords and literal tokens become literal nodes carrying
      false, true, nil or the token's decoded literal, as `LiteralToken`
      pairs them. */
  lemma PrimaryLiterals(toks: seq<Token>, pos: nat, v: Value)
    requires EndsWithEof(toks) && pos < |toks| && !AtEnd(toks, pos) && LiteralToken(toks[pos], v)
    ensures Primary(toks, pos) == Success(Parsed(Literal(v), pos + 1))
  {
    var k := toks[pos].kind;
    if k == KwFalse || k == KwTrue || k == KwNil {
      assert Primary(toks, pos) == LiteralAt(toks, pos, v);
    } else {
      assert MatchAny(toks, pos, [NumberLit, StringLit]);
    }
  }

  /** A binary level whose operand is followed by none of the level's
      operators is that operand alone. */
  lemma NoOperator(toks: seq<Token>, pos: nat, level: nat, e: Expr, next: nat)
    requires EndsWithEof(toks) && pos < |toks| && 1 <= level <= 4
    requires Operand(toks, pos, level) == Success(Parsed(e, next))
    requires next < |toks| && !MatchAny(toks, next, Operators(level))
    ensures BinaryLevel(toks, pos, level) == Success(Parsed(e, next))
  {
  }

  /** A binary level with exactly one of its operators between two operands
      builds one node over them. */
  lemma OneOperator(toks: seq<Token>, pos: nat, level: nat, left: Expr, mid: nat, right: Expr, next: nat)
    requires EndsWithEof(toks) && pos < |toks| && 1 <= level <= 4
    requires Operand(toks, pos, level) == Success(Parsed(left, mid))
    requires mid + 1 < |toks| && MatchAny(toks, mid, Operators(level))
    requires Operand(toks, mid + 1, level) == Success(Parsed(right, next))
    requires next < |toks| && !MatchAny(toks, next, Operators(level))
    ensures BinaryLevel(toks, pos, level) == Success(Parsed(Binary(left, toks[mid], right), next))
  {
    var node := Binary(left, toks[mid], right);
    LoopStarts(toks, pos, left, mid, level);
    LoopStep(toks, pos, mid, next, node, level);
    assert LevelLoop(toks, pos, node, next, level) == Success(Parsed(node, next));
  }

  /** A literal token followed by no operator of the levels below `level` is,
      on its own, the operand of a `level` expression: each level's loop sees
      no operator of its own and hands the literal up unchanged. */
  lemma {:induction false} LiteralOperand(toks: seq<Token>, pos: nat, v: Value, level: nat)
    requires EndsWithEof(toks) && pos + 1 < |toks| && 1 <= level <= 4
    requires !AtEnd(toks, pos) && LiteralToken(toks[pos], v)
    requires forall j :: 1 <= j < level ==> !MatchAny(toks, pos + 1, Operators(j))
    ensures Operand(toks, pos, level) == Success(Parsed(Literal(v), pos + 1))
    decreases level
  {
    PrimaryLiterals(toks, pos, v);
    assert !MatchAny(toks, pos, [Bang, Minus]);
    if level > 1 {
      LiteralOperand(toks, pos, v, level - 1);
      assert !MatchAny(toks, pos + 1, Operators(level - 1));
    }
  }

  /** `!` and `-` nest to the right: the operand of a unary node is parsed as a
      unary expression again, so `!!x` is a unary node inside a unary node. */
  lemma UnaryNests(toks: seq<Token>, pos: nat)
    requires EndsWithEof(toks) && pos < |toks|
    requires Check(toks, pos, Bang) || Check(toks, pos, Minus)
    ensures var inner := UnaryExpr(toks, pos + 1);
      UnaryExpr(toks, pos) == if inner.Failure? then Failure(inner.error)
                              else Success(Parsed(Unary(toks[pos], inner.value.value), inner.value.next))
  {
  }

  /** A `(` whose expression is not followed by `)` is an error at the token
      found instead. */
  lemma UnclosedGrouping(toks: seq<Token>, pos: nat)
    requires EndsWithEof(toks) && pos < |toks| && Check(toks, pos, LeftParen)
    requires Expression(toks, pos + 1).Success?
    requires !Check(toks, Expression(toks, pos + 1).value.next, RightParen)
    ensures Primary(toks, pos) ==
              Failure(ParseError(toks[Expression(toks, pos + 1).value.next], "Expected ')' after expression."))
  {
    PrimaryGrouping(toks, pos);
  }

  lemma PrimaryGrouping(toks: seq<Token>, pos: nat)
    requires EndsWithEof(toks) && pos < |toks| && Check(toks, pos, LeftParen)
    ensures Primary(toks, pos) == GroupingAt(toks, pos)
  {
    assert toks[pos].kind == LeftParen;
    assert !Check(toks, pos, KwFalse) && !Check(toks, pos, KwTrue) && !Check(toks, pos, KwNil);
    assert !MatchAny(toks, pos, [NumberLit, StringLit]);
  }

  /** A tree of a lower level never has an operator of a higher level at its
      root: the right operand of `-` cannot be an ungrouped `-` or `+` node
      (left associativity), and the operand of `*` cannot be an ungrouped `+`
      node (precedence). */
  lemma {:induction false} NoHigherOperatorBelow(e: Expr, j: nat, k: nat)
    requires j < k <= 4 && AtLevel(e, j)
    ensures !(e.Binary? && e.operator.kind in Operators(k))
  {
    if j > 0 && !(e.Binary? && e.operator.kind in Operators(j) && AtLevel(e.left, j) && AtLevel(e.right, j - 1)) {
      NoHigherOperatorBelow(e, j - 1, k);
    }
  }

  /** Parsing stops at the first syntax error: when the statement at the cursor
      fails, the whole parse fails with that error and nothing else. */
  lemma FirstErrorAborts(toks: seq<Token>, pos: nat, parsed: seq<Stmt>)
    requires EndsWithEof(toks) && pos < |toks| && !AtEnd(toks, pos)
    requires Statement(toks, pos).Failure?
    ensures ParseFrom(toks, pos, parsed) == Failure(Statement(toks, pos).error)
  {
  }

  // ---------------------------------------------------------------------------
  // Completeness: every run that spells a tree of the grammar parses to it

  /** The operator kinds of different binary levels never overlap. */
  lemma OperatorsDisjoint(i: nat, j: nat, kind: TokenType)
    requires 1 <= i <= 4 && 1 <= j <= 4 && i != j && kind in Operators(i)
    ensures kind !in Operators(j)
  {
  }

  /** A binary node of a level's own operator has a left operand of that level
      and a right operand of the level below. */
  lemma BinaryOperands(t: Expr, level: nat)
    requires 1 <= level <= 4 && AtLevel(t, level) && t.Binary? && t.operator.kind in Operators(level)
    ensures AtLevel(t.left, level) && AtLevel(t.right, level - 1)
  {
    if AtLevel(t, level - 1) {
      NoHigherOperatorBelow(t, level - 1, level);
    }
  }

  /** The token kinds an expression can start with: never `print` nor the
      end of input. */
  predicate StartsExpression(kind: TokenType) {
    kind in PrimaryStarts || kind == Bang || kind == Minus
  }

  /** A run spelling a tree of `level` starts with a token that can begin an
      expression. */
  lemma {:induction false} FirstToken(ts: seq<Token>, t: Expr, level: nat)
    requires level <= 4 && AtLevel(t, level) && Yields(ts, t)
    ensures |ts| > 0 && StartsExpression(ts[0].kind)
    decreases t, level
  {
    if level > 0 && !(t.Binary? && t.operator.kind in Operators(level) && AtLevel(t.left, level)) {
      FirstToken(ts, t, level - 1);
    } else if level > 0 {
      var k :| 0 < k < |ts| && ts[k] == t.operator && Yields(ts[..k], t.left) && Yields(ts[k + 1..], t.right);
      FirstToken(ts[..k], t.left, level);
    }
  }

  /** `FirstToken` in positions of `toks`. */
  lemma FirstTokenAt(toks: seq<Token>, a: nat, e: nat, t: Expr, level: nat)
    requires a <= e <= |toks| && level <= 4 && AtLevel(t, level) && Yields(toks[a..e], t)
    ensures a < e && StartsExpression(toks[a].kind)
  {
    FirstToken(toks[a..e], t, level);
    assert toks[a..e][0] == toks[a];
  }

  /** A slice of a slice is a slice of the whole. */
  lemma SliceOfSlice(toks: seq<Token>, a: nat, e: nat, i: nat, j: nat)
    requires a <= e <= |toks| && i <= j <= e - a
    ensures toks[a..e][i..j] == toks[a + i..a + j]
  {
    var inner, whole := toks[a..e][i..j], toks[a + i..a + j];
    assert |inner| == |whole| && forall n :: 0 <= n < |inner| ==> inner[n] == whole[n];
  }

  /** The parentheses and the inside of a run spelling a grouping, in
      positions of `toks`. */
  lemma GroupingSplit(toks: seq<Token>, a: nat, e: nat, inner: Expr)
    requires a <= e <= |toks| && Yields(toks[a..e], Grouping(inner))
    ensures a + 2 <= e && toks[a].kind == LeftParen && toks[e - 1].kind == RightParen
    ensures Yields(toks[a + 1..e - 1], inner)
  {
    var ts := toks[a..e];
    assert ts[0] == toks[a] && ts[|ts| - 1] == toks[e - 1];
    SliceOfSlice(toks, a, e, 1, |ts| - 1);
  }

  /** The split of a run spelling a binary node, in positions of `toks`. */
  lemma BinarySplit(toks: seq<Token>, a: nat, e: nat, t: Expr)
    requires a <= e <= |toks| && t.Binary? && Yields(toks[a..e], t)
    ensures exists k :: a < k < e && toks[k] == t.operator && Yields(toks[a..k], t.left) && Yields(toks[k + 1..e], t.right)
  {
    var ts := toks[a..e];
    var m :| 0 < m < |ts| && ts[m] == t.operator && Yields(ts[..m], t.left) && Yields(ts[m + 1..], t.right);
    PrefixOfSlice(toks, a, e, m);
    SuffixOfSlice(toks, a, e, m + 1);
  }

  /** A prefix of a slice is a slice of the whole. */
  lemma PrefixOfSlice(toks: seq<Token>, a: nat, e: nat, k: nat)
    requires a <= e <= |toks| && k <= e - a
    ensures toks[a..e][..k] == toks[a..a + k]
  {
    SliceOfSlice(toks, a, e, 0, k);
    assert toks[a..e][..k] == toks[a..e][0..k];
  }

  /** A suffix of a slice is a slice of the whole. */
  lemma SuffixOfSlice(toks: seq<Token>, a: nat, e: nat, k: nat)
    requires a <= e <= |toks| && k <= e - a
    ensures toks[a..e][k..] == toks[a + k..e]
  {
    SliceOfSlice(toks, a, e, k, e - a);
    assert toks[a..e][k..] == toks[a..e][k..e - a];
  }

  /** One turn of a binary level's loop: the operator at `pos` and the operand
      after it fold into a new node, and the loop goes on after the operand. */
  lemma LoopStep(toks: seq<Token>, start: nat, pos: nat, q: nat, t: Expr, level: nat)
    requires EndsWithEof(toks) && start < pos < |toks| && 1 <= level <= 4
    requires t.Binary? && toks[pos] == t.operator && MatchAny(toks, pos, Operators(level))
    requires AtLevel(t.left, level) && Yields(toks[start..pos], t.left)
    requires Operand(toks, pos + 1, level) == Success(Parsed(t.right, q))
    ensures AtLevel(t, level) && Yields(toks[start..q], t)
    ensures LevelLoop(toks, start, t.left, pos, level) == LevelLoop(toks, start, t, q, level)
  {
    BinaryYields(toks, start, pos, q, t.left, t.right);
    assert t == Binary(t.left, toks[pos], t.right);
  }


  /** Completeness of `unary`: a run `toks[a..e]` that spells a tree of level
      0 is what `unary` parses from `a`. */
  lemma {:induction false} UnaryComplete(toks: seq<Token>, a: nat, e: nat, t: Expr)
    requires EndsWithEof(toks) && a <= e < |toks|
    requires AtLevel(t, 0) && Yields(toks[a..e], t)
    ensures UnaryExpr(toks, a) == Success(Parsed(t, e))
    decreases t, 0, 1
  {
    var ts := toks[a..e];
    match t
    case Literal(v) =>
      assert ts[0] == toks[a] && e == a + 1;
      PrimaryLiterals(toks, a, v);
    case Grouping(inner) =>
      GroupingSplit(toks, a, e, inner);
      GroupingComplete(toks, a, e, inner);
    case Unary(op, operand) =>
      SuffixOfSlice(toks, a, e, 1);
      assert ts[0] == toks[a];
      UnaryComplete(toks, a + 1, e, operand);
      UnaryNests(toks, a);
  }

  /** A tree of the grammar between `(` and `)` is what `unary` parses. */
  lemma {:induction false} GroupingComplete(toks: seq<Token>, a: nat, e: nat, inner: Expr)
    requires EndsWithEof(toks) && a + 2 <= e < |toks|
    requires toks[a].kind == LeftParen && toks[e - 1].kind == RightParen
    requires AtLevel(inner, 4) && Yields(toks[a + 1..e - 1], inner)
    ensures UnaryExpr(toks, a) == Success(Parsed(Grouping(inner), e))
    decreases Grouping(inner), 0, 0
  {
    NotAnOperator(toks, e - 1);
    BinaryComplete(toks, a + 1, e - 1, inner, 4);
    ParenthesesParse(toks, a, e, inner);
  }


  /** An expression between `(` and `)` is what `unary` parses. */
  lemma ParenthesesParse(toks: seq<Token>, a: nat, e: nat, inner: Expr)
    requires EndsWithEof(toks) && a + 1 < e < |toks|
    requires Check(toks, a, LeftParen) && Check(toks, e - 1, RightParen)
    requires BinaryLevel(toks, a + 1, 4) == Success(Parsed(inner, e - 1))
    ensures UnaryExpr(toks, a) == Success(Parsed(Grouping(inner), e))
  {
    var inside := Expression(toks, a + 1);
    assert inside == Success(Parsed(inner, e - 1));
    assert inside.Success? && Check(toks, inside.value.next, RightParen);
    var grouped := GroupingAt(toks, a);
    assert grouped == Success(Parsed(Grouping(inside.value.value), inside.value.next + 1));
    UnaryGrouping(toks, a);
  }

  /** At `(`, `unary` is the grouping parser. */
  lemma UnaryGrouping(toks: seq<Token>, pos: nat)
    requires EndsWithEof(toks) && pos < |toks| && Check(toks, pos, LeftParen)
    ensures UnaryExpr(toks, pos) == GroupingAt(toks, pos)
  {
    assert toks[pos].kind == LeftParen;
    assert toks[pos].kind !in [Bang, Minus];
    UnaryFallsThrough(toks, pos);
    PrimaryGrouping(toks, pos);
  }

  /** Without a `!` or `-` at the cursor, `unary` is `primary`. */
  lemma UnaryFallsThrough(toks: seq<Token>, pos: nat)
    requires EndsWithEof(toks) && pos < |toks| && !MatchAny(toks, pos, [Bang, Minus])
    ensures UnaryExpr(toks, pos) == Primary(toks, pos)
  {
  }

  /** A closing parenthesis or a `;` is no binary operator. */
  lemma NotAnOperator(toks: seq<Token>, pos: nat)
    requires pos < |toks| && toks[pos].kind in [RightParen, Semicolon]
    ensures NoOperatorUpTo(toks, pos, 4)
  {
  }

  /** No operator of the levels up to `level` means none up to any lower level. */
  lemma NoOperatorLower(toks: seq<Token>, pos: nat, level: nat, lower: nat)
    requires lower <= level <= 4 && NoOperatorUpTo(toks, pos, level)
    ensures NoOperatorUpTo(toks, pos, lower)
  {
  }

  /** A binary level starts its loop on whatever its operand parses. */
  lemma LoopStarts(toks: seq<Token>, a: nat, t: Expr, e: nat, level: nat)
    requires EndsWithEof(toks) && a < |toks| && 1 <= level <= 4
    requires Operand(toks, a, level) == Success(Parsed(t, e))
    ensures a < e < |toks| && AtLevel(t, level) && Yields(toks[a..e], t)
    ensures BinaryLevel(toks, a, level) == LevelLoop(toks, a, t, e, level)
  {
  }

  /** The operator of a binary node spelled by a run is a token of the level's
      operators, so no end-of-input token. */
  lemma OperatorMatches(toks: seq<Token>, k: nat, t: Expr, level: nat)
    requires k < |toks| && 1 <= level <= 4 && t.Binary? && t.operator.kind in Operators(level)
    requires toks[k] == t.operator
    ensures MatchAny(toks, k, Operators(level))
  {
  }

  /** Completeness of a binary level: a run `toks[a..e]` that spells a tree of
      `level`, with no operator of the levels up to `level` after it, is what
      the level parses from `a`. */
  lemma {:induction false} BinaryComplete(toks: seq<Token>, a: nat, e: nat, t: Expr, level: nat)
    requires EndsWithEof(toks) && a <= e < |toks| && 1 <= level <= 4
    requires AtLevel(t, level) && Yields(toks[a..e], t) && NoOperatorUpTo(toks, e, level)
    ensures BinaryLevel(toks, a, level) == Success(Parsed(t, e))
    decreases t, level, 3
  {
    FirstTokenAt(toks, a, e, t, level);
    if t.Binary? && t.operator.kind in Operators(level) {
      BinaryOperands(t, level);
      BinarySplit(toks, a, e, t);
      var k :| a < k < e && toks[k] == t.operator && Yields(toks[a..k], t.left) && Yields(toks[k + 1..e], t.right);
      NoOperatorLower(toks, e, level, level - 1);
      BinaryNodeComplete(toks, a, k, e, t, level);
    } else {
      NoOperatorLower(toks, e, level, level - 1);
      OperandComplete(toks, a, e, t, level);
      LoopStarts(toks, a, t, e, level);
    }
  }

  /** The binary case of `BinaryComplete`, with the node's operator at `k`. */
  lemma {:induction false} BinaryNodeComplete(toks: seq<Token>, a: nat, k: nat, e: nat, t: Expr, level: nat)
    requires EndsWithEof(toks) && a < k < e < |toks| && 1 <= level <= 4
    requires t.Binary? && t.operator.kind in Operators(level) && toks[k] == t.operator
    requires AtLevel(t.left, level) && Yields(toks[a..k], t.left)
    requires AtLevel(t.right, level - 1) && Yields(toks[k + 1..e], t.right)
    requires NoOperatorUpTo(toks, e, level) && NoOperatorUpTo(toks, e, level - 1)
    ensures BinaryLevel(toks, a, level) == Success(Parsed(t, e))
    decreases t, level, 2
  {
    LoopNodeReaches(toks, a, k, e, t, level);
    assert !MatchAny(toks, e, Operators(level));
  }

  /** Completeness of a binary level's operand parser. */
  lemma {:induction false} OperandComplete(toks: seq<Token>, a: nat, e: nat, t: Expr, level: nat)
    requires EndsWithEof(toks)
    requires a <= e < |toks|
    requires 1 <= level <= 4
    requires AtLevel(t, level - 1)
    requires Yields(toks[a..e], t)
    requires NoOperatorUpTo(toks, e, level - 1)
    ensures Operand(toks, a, level) == Success(Parsed(t, e))
    decreases t, level - 1, 4
  {
    if level == 1 {
      UnaryComplete(toks, a, e, t);
    } else {
      BinaryComplete(toks, a, e, t, level - 1);
    }
  }

  /** The loop of a binary level reaches the tree spelled by `toks[a..k]` with
      its cursor on the operator at `k`. */
  lemma {:induction false} LoopReaches(toks: seq<Token>, a: nat, k: nat, t: Expr, level: nat)
    requires EndsWithEof(toks) && a < k < |toks| && 1 <= level <= 4
    requires AtLevel(t, level) && Yields(toks[a..k], t)
    requires MatchAny(toks, k, Operators(level))
    ensures NoOperatorUpTo(toks, k, level - 1)
    ensures BinaryLevel(toks, a, level) == LevelLoop(toks, a, t, k, level)
    decreases t, level, 1
  {
    OperatorEndsLower(toks, k, level);
    FirstTokenAt(toks, a, k, t, level);
    if t.Binary? && t.operator.kind in Operators(level) {
      BinaryOperands(t, level);
      BinarySplit(toks, a, k, t);
      var m :| a < m < k && toks[m] == t.operator && Yields(toks[a..m], t.left) && Yields(toks[m + 1..k], t.right);
      LoopNodeReaches(toks, a, m, k, t, level);
    } else {
      OperandComplete(toks, a, k, t, level);
      LoopStarts(toks, a, t, k, level);
    }
  }

  /** The binary case of `LoopReaches`, with the node's operator at `m`. */
  lemma {:induction false} LoopNodeReaches(toks: seq<Token>, a: nat, m: nat, k: nat, t: Expr, level: nat)
    requires EndsWithEof(toks) && a < m < k < |toks| && 1 <= level <= 4
    requires t.Binary? && t.operator.kind in Operators(level) && toks[m] == t.operator
    requires AtLevel(t.left, level) && Yields(toks[a..m], t.left)
    requires AtLevel(t.right, level - 1) && Yields(toks[m + 1..k], t.right)
    requires NoOperatorUpTo(toks, k, level - 1)
    ensures AtLevel(t, level) && Yields(toks[a..k], t) && BinaryLevel(toks, a, level) == LevelLoop(toks, a, t, k, level)
    decreases t, level, 0
  {
    OperandComplete(toks, m + 1, k, t.right, level);
    OperatorMatches(toks, m, t, level);
    LoopReaches(toks, a, m, t.left, level);
    LoopStep(toks, a, m, k, t, level);
  }

  /** An operator of a level is none of the lower levels' operators. */
  lemma OperatorEndsLower(toks: seq<Token>, k: nat, level: nat)
    requires k < |toks| && 1 <= level <= 4 && MatchAny(toks, k, Operators(level))
    ensures NoOperatorUpTo(toks, k, level - 1)
  {
    forall j | 1 <= j <= level - 1
      ensures !MatchAny(toks, k, Operators(j))
    {
      OperatorsDisjoint(level, j, toks[k].kind);
    }
  }

  /** Completeness of `expression`: a run that spells a tree of the grammar,
      followed by no binary operator, is exactly what `expression` parses.
      With the contract of `Expression` this characterizes its successes. */
  lemma ExpressionComplete(toks: seq<Token>, pos: nat, e: nat, t: Expr)
    requires EndsWithEof(toks) && pos <= e < |toks|
    requires AtLevel(t, 4) && Yields(toks[pos..e], t) && NoOperatorUpTo(toks, e, 4)
    ensures Expression(toks, pos) == Success(Parsed(t, e))
  {
    BinaryComplete(toks, pos, e, t, 4);
  }

  /** The parts of a run spelling a statement, in positions of `toks`: the
      optional `print`, the expression and the closing `;`. */
  lemma StatementSplit(toks: seq<Token>, pos: nat, e: nat, s: Stmt)
    requires pos <= e <= |toks| && StmtYields(toks[pos..e], s)
    ensures var start := if s.PrintStmt? then pos + 1 else pos;
      && start < e && toks[e - 1].kind == Semicolon
      && (s.PrintStmt? ==> toks[pos].kind == KwPrint)
      && Yields(toks[start..e - 1], s.expression)
  {
    var ts := toks[pos..e];
    assert ts[0] == toks[pos];
    assert ts[|ts| - 1] == toks[e - 1];
    if s.PrintStmt? {
      SliceOfSlice(toks, pos, e, 1, |ts| - 1);
    } else {
      PrefixOfSlice(toks, pos, e, |ts| - 1);
    }
  }

  /** `expression` from `pos` yields tree `t` and stops at `e` exactly when
      `toks[pos..e]` spells `t` by the grammar and no binary operator follows. */
  lemma ExpressionParsesIff(toks: seq<Token>, pos: nat, e: nat, t: Expr)
    requires EndsWithEof(toks) && pos <= e < |toks|
    ensures Expression(toks, pos) == Success(Parsed(t, e)) <==>
              AtLevel(t, 4) && Yields(toks[pos..e], t) && NoOperatorUpTo(toks, e, 4)
  {
    if AtLevel(t, 4) && Yields(toks[pos..e], t) && NoOperatorUpTo(toks, e, 4) {
      ExpressionComplete(toks, pos, e, t);
    }
  }

  /** Completeness of `statement`: a run that spells a statement of the
      grammar is exactly what `statement` parses. */
  lemma StatementComplete(toks: seq<Token>, pos: nat, e: nat, s: Stmt)
    requires EndsWithEof(toks) && pos <= e <= |toks|
    requires ParsedStatement(s) && StmtYields(toks[pos..e], s)
    ensures e < |toks| && Statement(toks, pos) == Success(Parsed(s, e))
  {
    StatementSplit(toks, pos, e, s);
    StatementFromRun(toks, pos, if s.PrintStmt? then pos + 1 else pos, e, s);
  }

  /** The expression run of a statement parses as that expression, so the
      statement parses. */
  lemma StatementFromRun(toks: seq<Token>, pos: nat, start: nat, e: nat, s: Stmt)
    requires EndsWithEof(toks) && e <= |toks| && ParsedStatement(s)
    requires start == if s.PrintStmt? then pos + 1 else pos
    requires start < e && toks[e - 1].kind == Semicolon
    requires s.PrintStmt? ==> toks[pos].kind == KwPrint
    requires Yields(toks[start..e - 1], s.expression)
    ensures e < |toks| && Statement(toks, pos) == Success(Parsed(s, e))
  {
    FirstTokenAt(toks, start, e - 1, s.expression, 4);
    NotAnOperator(toks, e - 1);
    ExpressionComplete(toks, start, e - 1, s.expression);
    StatementFromParts(toks, pos, start, e, s);
  }

  /** `statement` puts together the optional `print`, the expression parsed
      after it and the `;` that follows. */
  lemma StatementFromParts(toks: seq<Token>, pos: nat, start: nat, e: nat, s: Stmt)
    requires EndsWithEof(toks) && pos < e < |toks| && (s.ExprStmt? || s.PrintStmt?)
    requires s.PrintStmt? <==> Check(toks, pos, KwPrint)
    requires start == if s.PrintStmt? then pos + 1 else pos
    requires start < e - 1 && Expression(toks, start) == Success(Parsed(s.expression, e - 1))
    requires toks[e - 1].kind == Semicolon
    ensures Statement(toks, pos) == Success(Parsed(s, e))
  {
    if s.PrintStmt? {
      PrintFromParts(toks, start, e, s.expression);
      assert Statement(toks, pos) == PrintStatement(toks, start);
    } else {
      ExpressionFromParts(toks, start, e, s.expression);
      assert Statement(toks, pos) == ExpressionStatement(toks, start);
    }
  }

  /** `printStatement` puts together the expression and the `;` after it. */
  lemma PrintFromParts(toks: seq<Token>, start: nat, e: nat, x: Expr)
    requires EndsWithEof(toks) && start < e - 1 && e < |toks|
    requires Expression(toks, start) == Success(Parsed(x, e - 1)) && toks[e - 1].kind == Semicolon
    ensures PrintStatement(toks, start) == Success(Parsed(PrintStmt(x), e))
  {
    assert Consume(toks, e - 1, Semicolon, "Expected ';' after value.") == Success(e);
  }

  /** `expressionStatement` puts together the expression and the `;` after it. */
  lemma ExpressionFromParts(toks: seq<Token>, start: nat, e: nat, x: Expr)
    requires EndsWithEof(toks) && start < e - 1 && e < |toks|
    requires Expression(toks, start) == Success(Parsed(x, e - 1)) && toks[e - 1].kind == Semicolon
    ensures ExpressionStatement(toks, start) == Success(Parsed(ExprStmt(x), e))
  {
    assert Consume(toks, e - 1, Semicolon, "Expected ';' after value.") == Success(e);
  }

  /** `statement` from `pos` yields `s` and stops at `e` exactly when
      `toks[pos..e]` spells `s` by the grammar. */
  lemma StatementParsesIff(toks: seq<Token>, pos: nat, e: nat, s: Stmt)
    requires EndsWithEof(toks) && pos < |toks| && pos <= e <= |toks|
    ensures Statement(toks, pos) == Success(Parsed(s, e)) <==> ParsedStatement(s) && StmtYields(toks[pos..e], s)
  {
    if ParsedStatement(s) && StmtYields(toks[pos..e], s) {
      StatementComplete(toks, pos, e, s);
    }
  }

  /** The first statement's run and the rest, in positions of `toks`. */
  lemma StatementsSplit(toks: seq<Token>, pos: nat, e: nat, ss: seq<Stmt>)
    requires pos <= e <= |toks| && StmtsYield(toks[pos..e], ss)
    ensures |ss| == 0 ==> pos == e
    ensures |ss| > 0 ==> exists k :: pos < k <= e && StmtYields(toks[pos..k], ss[0]) && StmtsYield(toks[k..e], ss[1..])
  {
    if |ss| > 0 {
      var ts := toks[pos..e];
      var k :| 0 < k <= |ts| && StmtYields(ts[..k], ss[0]) && StmtsYield(ts[k..], ss[1..]);
      PrefixOfSlice(toks, pos, e, k);
      SuffixOfSlice(toks, pos, e, k);
    }
  }

  /** Completeness of the `parse` loop: statements whose runs spell the tokens
      from `pos` up to an end-of-input token are all parsed, after the ones
      already parsed. */
  lemma {:induction false} ParseFromComplete(toks: seq<Token>, pos: nat, e: nat, parsed: seq<Stmt>, ss: seq<Stmt>)
    requires EndsWithEof(toks) && pos <= e < |toks| && AtEnd(toks, e)
    requires StmtsYield(toks[pos..e], ss) && forall i :: 0 <= i < |ss| ==> ParsedStatement(ss[i])
    ensures ParseFrom(toks, pos, parsed) == Success(parsed + ss)
    decreases |ss|, 1
  {
    StatementsSplit(toks, pos, e, ss);
    if |ss| == 0 {
      assert parsed + ss == parsed;
    } else {
      var k :| pos < k <= e && StmtYields(toks[pos..k], ss[0]) && StmtsYield(toks[k..e], ss[1..]);
      assert ParsedStatement(ss[0]);
      StatementComplete(toks, pos, k, ss[0]);
      FirstStatementToken(toks, pos, k, ss[0]);
      ParseFromStep(toks, pos, parsed, ss[0], k);
      ParseFromRest(toks, k, e, parsed, ss);
    }
  }

  /** Appending the first statement and then the rest appends them all. */
  lemma AppendFirst(parsed: seq<Stmt>, ss: seq<Stmt>)
    requires |ss| > 0
    ensures parsed + [ss[0]] + ss[1..] == parsed + ss
  {
    assert [ss[0]] + ss[1..] == ss;
  }

  /** The rest of the `parse` loop after the first of `ss`. */
  lemma {:induction false} ParseFromRest(toks: seq<Token>, k: nat, e: nat, parsed: seq<Stmt>, ss: seq<Stmt>)
    requires EndsWithEof(toks) && k <= e < |toks| && AtEnd(toks, e) && |ss| > 0
    requires StmtsYield(toks[k..e], ss[1..]) && forall i :: 0 <= i < |ss| ==> ParsedStatement(ss[i])
    ensures ParseFrom(toks, k, parsed + [ss[0]]) == Success(parsed + ss)
    decreases |ss|, 0
  {
    var p, rest := parsed + [ss[0]], ss[1..];
    forall i | 0 <= i < |rest|
      ensures ParsedStatement(rest[i])
    {
      assert rest[i] == ss[i + 1];
    }
    ParseFromComplete(toks, k, e, p, rest);
    AppendFirst(parsed, ss);
  }


  /** One turn of the `parse` loop: a statement parsed at `pos` is appended
      and the loop goes on where it ended. */
  lemma ParseFromStep(toks: seq<Token>, pos: nat, parsed: seq<Stmt>, s: Stmt, k: nat)
    requires EndsWithEof(toks) && pos < k < |toks| && !AtEnd(toks, pos)
    requires Statement(toks, pos) == Success(Parsed(s, k))
    ensures ParseFrom(toks, pos, parsed) == ParseFrom(toks, k, parsed + [s])
  {
  }

  /** A statement's run starts with `print` or an expression, never with an
      end-of-input token. */
  lemma FirstStatementToken(toks: seq<Token>, pos: nat, e: nat, s: Stmt)
    requires pos <= e <= |toks|
    requires ParsedStatement(s) && StmtYields(toks[pos..e], s)
    ensures pos < |toks| && !AtEnd(toks, pos)
  {
    StatementSplit(toks, pos, e, s);
    if s.ExprStmt? {
      FirstTokenAt(toks, pos, e - 1, s.expression, 4);
    }
  }

  /** Completeness of `parse`: a token list whose tokens up to the first
      end-of-input token are the runs of statements of the grammar parses to
      exactly those statements. With the contract of `Parse` this
      characterizes its successes. */
  lemma ParseComplete(toks: seq<Token>, e: nat, ss: seq<Stmt>)
    requires EndsWithEof(toks) && e < |toks| && AtEnd(toks, e)
    requires StmtsYield(toks[..e], ss) && forall i :: 0 <= i < |ss| ==> ParsedStatement(ss[i])
    ensures Parse(toks) == Success(ss)
  {
    assert toks[0..e] == toks[..e];
    ParseFromComplete(toks, 0, e, [], ss);
    assert [] + ss == ss;
  }

  /** `parse` succeeds with `ss` exactly when the tokens before some
      end-of-input token are the runs of the statements `ss`, each a statement
      of the grammar. */
  lemma ParseIff(toks: seq<Token>, ss: seq<Stmt>)
    requires EndsWithEof(toks)
    ensures Parse(toks) == Success(ss) <==>
              && (forall i :: 0 <= i < |ss| ==> ParsedStatement(ss[i]))
              && exists e: nat :: e < |toks| && AtEnd(toks, e) && StmtsYield(toks[..e], ss)
  {
    if && (forall i :: 0 <= i < |ss| ==> ParsedStatement(ss[i]))
       && exists e: nat :: e < |toks| && AtEnd(toks, e) && StmtsYield(toks[..e], ss) {
      var e: nat :| e < |toks| && AtEnd(toks, e) && StmtsYield(toks[..e], ss);
      ParseComplete(toks, e, ss);
    }
  }
}
