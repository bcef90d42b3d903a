/** Whole runs of small programs, written as hand-built syntax trees, with the
    printed lines and reported errors each one produces; for the first program
    the parser is shown to build exactly that tree from its tokens. Number
    formatting is left abstract, so printed numbers appear as `fmt(n)`. */
module Scenarios {
  import opened Wrappers
  import opened Values
  import opened Tokens
  import opened RuntimeErrors
  import opened Ast
  import opened Environment
  import opened Interpreter
  import Parser

  /** An operator token as the scanner makes it: the lexeme doubles as the
      literal. */
  function Op(kind: TokenType, lexeme: string): Token {
    Token(kind, lexeme, Str(lexeme), 1)
  }

  function Name(x: string): Token {
    Token(Identifier, x, Nil, 1)
  }

  function Number(n: real): Expr {
    Literal(Num(n))
  }

  /** The global scope of a fresh interpreter. */
  const Fresh: Env := [map[]]

  /** `print 1 + 2 * 3;` prints 7: `*` binds tighter than `+`. */
  lemma PrecedenceRun(fmt: NumberFormat)
    ensures Interpret([PrintStmt(Binary(Number(1.0), Op(Plus, "+"), Binary(Number(2.0), Op(Star, "*"), Number(3.0))))], Fresh, fmt)
              == Outcome(Fresh, [fmt(7.0)], [])
  {
    var product := Binary(Number(2.0), Op(Star, "*"), Number(3.0));
    assert Evaluate(product, Fresh, fmt) == Eval(Fresh, Success(Num(6.0)));
    assert Evaluate(Binary(Number(1.0), Op(Plus, "+"), product), Fresh, fmt) == Eval(Fresh, Success(Num(7.0)));
  }

  function NumberToken(lexeme: string, n: real): Token {
    Token(NumberLit, lexeme, Num(n), 1)
  }

  const Product: Expr := Binary(Number(2.0), Op(Star, "*"), Number(3.0))
  const Sum: Expr := Binary(Number(1.0), Op(Plus, "+"), Product)

  /** `t` is the token list the scanner produces for `print 1 + 2 * 3;`. */
  predicate PrecedenceSpelled(t: seq<Token>) {
    && |t| == 8
    && t[0] == Token(KwPrint, "print", Nil, 1) && t[1] == NumberToken("1", 1.0)
    && t[2] == Op(Plus, "+") && t[3] == NumberToken("2", 2.0)
    && t[4] == Op(Star, "*") && t[5] == NumberToken("3", 3.0)
    && t[6] == Op(Semicolon, ";") && t[7] == Token(Eof, "", Nil, 1)
  }

  /** The parser turns those tokens into the tree `PrecedenceRun` runs: the
      product is the right operand of the sum. */
  lemma PrecedenceParse(t: seq<Token>)
    requires PrecedenceSpelled(t)
    ensures Parser.Parse(t) == Success([PrintStmt(Sum)])
  {
    PrintSum(t);
    EndAfterPrint(t);
    assert [] + [PrintStmt(Sum)] == [PrintStmt(Sum)];
    assert Parser.ParseFrom(t, 0, []) == Parser.ParseFrom(t, 7, [PrintStmt(Sum)]);
  }

  /** After the `;` only the end-of-input token is left. */
  lemma EndAfterPrint(t: seq<Token>)
    requires PrecedenceSpelled(t)
    ensures Parser.ParseFrom(t, 7, [PrintStmt(Sum)]) == Success([PrintStmt(Sum)])
  {
  }

  /** The one statement is `print` with the sum, up to and including `;`. */
  lemma PrintSum(t: seq<Token>)
    requires PrecedenceSpelled(t)
    ensures Parser.Statement(t, 0) == Success(Parser.Parsed(PrintStmt(Sum), 7))
  {
    SumExpression(t);
    assert Parser.PrintStatement(t, 1) == Success(Parser.Parsed(PrintStmt(Sum), 7));
  }

  /** `2 * 3` is one operand of the term level: the factor level takes `*`
      and stops at `;`. */
  lemma ProductOperand(t: seq<Token>)
    requires PrecedenceSpelled(t)
    ensures Parser.Operand(t, 3, 2) == Success(Parser.Parsed(Product, 6))
  {
    ProductFactor(t);
  }

  lemma ProductFactor(t: seq<Token>)
    requires PrecedenceSpelled(t)
    ensures Parser.BinaryLevel(t, 3, 1) == Success(Parser.Parsed(Product, 6))
  {
    Parser.LiteralOperand(t, 3, Num(2.0), 1);
    Parser.LiteralOperand(t, 5, Num(3.0), 1);
    Parser.OneOperator(t, 3, 1, Number(2.0), 4, Number(3.0), 6);
  }

  /** The term level takes `+` with the product as its right operand. */
  lemma SumTerm(t: seq<Token>)
    requires PrecedenceSpelled(t)
    ensures Parser.BinaryLevel(t, 1, 2) == Success(Parser.Parsed(Sum, 6))
  {
    Parser.LiteralOperand(t, 1, Num(1.0), 2);
    ProductOperand(t);
    Parser.OneOperator(t, 1, 2, Number(1.0), 2, Product, 6);
  }

  /** The comparison and equality levels find no operator of their own. */
  lemma SumExpression(t: seq<Token>)
    requires PrecedenceSpelled(t)
    ensures Parser.Expression(t, 1) == Success(Parser.Parsed(Sum, 6))
  {
    SumTerm(t);
    Parser.NoOperator(t, 1, 3, Sum, 6);
    Parser.NoOperator(t, 1, 4, Sum, 6);
  }

  /** `print "a" + "b";` prints the concatenation. */
  lemma ConcatenationRun(fmt: NumberFormat)
    ensures Interpret([PrintStmt(Binary(Literal(Str("a")), Op(Plus, "+"), Literal(Str("b"))))], Fresh, fmt)
              == Outcome(Fresh, ["ab"], [])
  {
    assert "a" + "b" == "ab";
  }

  /** `print 1 + "b";` prints nothing and reports the mixed `+`. */
  lemma MixedPlusRun(fmt: NumberFormat)
    ensures Interpret([PrintStmt(Binary(Number(1.0), Op(Plus, "+"), Literal(Str("b"))))], Fresh, fmt)
              == Outcome(Fresh, [], [RuntimeError(Op(Plus, "+"), "Operands for '+' must be two numbers or two strings")])
  {
  }

  /** `print 1 / 0;` reports the division by zero. */
  lemma DivisionByZeroRun(fmt: NumberFormat)
    ensures Interpret([PrintStmt(Binary(Number(1.0), Op(Slash, "/"), Number(0.0)))], Fresh, fmt)
              == Outcome(Fresh, [], [RuntimeError(Op(Slash, "/"), "Division by zero.")])
  {
  }

  /** `print 1 == "1";` prints false: equality never converts. */
  lemma StrictEqualityRun(fmt: NumberFormat)
    ensures Interpret([PrintStmt(Binary(Number(1.0), Op(EqualEqual, "=="), Literal(Str("1"))))], Fresh, fmt)
              == Outcome(Fresh, ["false"], [])
  {
  }

  /** `print !0; print !nil;` prints false then true: zero is truthy. */
  lemma TruthinessRun(fmt: NumberFormat)
    ensures Interpret([PrintStmt(Unary(Op(Bang, "!"), Number(0.0))), PrintStmt(Unary(Op(Bang, "!"), Literal(Nil)))], Fresh, fmt)
              == Outcome(Fresh, ["false", "true"], [])
  {
  }

  /** `print 1; print -"a"; print 2;` prints 1, then the negation of a string
      stops the run: the third statement never executes. */
  lemma ErrorStopsRun(fmt: NumberFormat)
    ensures Interpret([PrintStmt(Number(1.0)), PrintStmt(Unary(Op(Minus, "-"), Literal(Str("a")))), PrintStmt(Number(2.0))], Fresh, fmt)
              == Outcome(Fresh, [fmt(1.0)], [RuntimeError(Op(Minus, "-"), "Operand for - must be a number.")])
  {
    var negate := PrintStmt(Unary(Op(Minus, "-"), Literal(Str("a"))));
    NegateStringFails(fmt);
    assert ExecuteAll([negate, PrintStmt(Number(2.0))], Fresh, fmt).out == [];
  }

  lemma NegateStringFails(fmt: NumberFormat)
    ensures Execute(PrintStmt(Unary(Op(Minus, "-"), Literal(Str("a")))), Fresh, fmt)
              == Exec(Fresh, [], Some(RuntimeError(Op(Minus, "-"), "Operand for - must be a number.")))
  {
    NegateStringError(fmt);
    assert Evaluate(Unary(Op(Minus, "-"), Literal(Str("a"))), Fresh, fmt)
             == Eval(Fresh, Failure(RuntimeError(Op(Minus, "-"), "Operand for - must be a number.")));
  }

  lemma NegateStringError(fmt: NumberFormat)
    ensures UnaryOp(Op(Minus, "-"), Str("a"), fmt) == Failure(RuntimeError(Op(Minus, "-"), "Operand for - must be a number."))
  {
    assert TemplateText(Str("-"), fmt) == "-";
    assert "Operand for " + "-" + " must be a number." == "Operand for - must be a number.";
  }

  /** `var x = 1; { var x = 2; print x; } print x;` prints 2 then 1: the inner
      declaration shadows the outer one and disappears with its block. */
  lemma ShadowingRun(fmt: NumberFormat)
    ensures Interpret([VarStmt(Name("x"), Number(1.0)),
                       BlockStmt([VarStmt(Name("x"), Number(2.0)), PrintStmt(Variable(Name("x")))]),
                       PrintStmt(Variable(Name("x")))], Fresh, fmt)
              == Outcome([map["x" := Num(1.0)]], [fmt(2.0), fmt(1.0)], [])
  {
    var x := Name("x");
    var global := [map["x" := Num(1.0)]];
    var block := BlockStmt([VarStmt(x, Number(2.0)), PrintStmt(Variable(x))]);
    ShadowingBlock(fmt);
    assert ExecuteAll([PrintStmt(Variable(x))], global, fmt) == Exec(global, [fmt(1.0)], None);
    assert ExecuteAll([block, PrintStmt(Variable(x))], global, fmt) == Exec(global, [fmt(2.0), fmt(1.0)], None);
    assert Execute(VarStmt(x, Number(1.0)), Fresh, fmt) == Exec(global, [], None);
  }

  /** The block of `ShadowingRun`: its declaration shadows the global `x`
      and is gone afterwards. */
  lemma ShadowingBlock(fmt: NumberFormat)
    ensures Execute(BlockStmt([VarStmt(Name("x"), Number(2.0)), PrintStmt(Variable(Name("x")))]), [map["x" := Num(1.0)]], fmt)
              == Exec([map["x" := Num(1.0)]], [fmt(2.0)], None)
  {
    var x := Name("x");
    var global := [map["x" := Num(1.0)]];
    var inner := global + [map["x" := Num(2.0)]];
    var body := [VarStmt(x, Number(2.0)), PrintStmt(Variable(x))];
    assert Execute(body[1], inner, fmt) == Exec(inner, [fmt(2.0)], None);
    assert ExecuteAll(body[1..], inner, fmt) == Exec(inner, [fmt(2.0)], None);
    assert Execute(body[0], global + [map[]], fmt) == Exec(inner, [], None);
    assert ExecuteAll(body, global + [map[]], fmt) == Exec(inner, [fmt(2.0)], None);
  }

  /** `var x = 1; { x = 2; x = 3; } print x;` prints 2, not 3. The first
      assignment finds `x` only in the global scope, writes it there and then
      also writes the block's own scope; the second finds `x` in the block's
      scope and writes only that, which is dropped with the block. */
  lemma AssignFallThroughRun(fmt: NumberFormat)
    ensures Interpret([VarStmt(Name("x"), Number(1.0)),
                       BlockStmt([ExprStmt(Assign(Name("x"), Number(2.0))), ExprStmt(Assign(Name("x"), Number(3.0)))]),
                       PrintStmt(Variable(Name("x")))], Fresh, fmt)
              == Outcome([map["x" := Num(2.0)]], [fmt(2.0)], [])
  {
    var x := Name("x");
    var global := [map["x" := Num(2.0)]];
    var block := BlockStmt([ExprStmt(Assign(x, Number(2.0))), ExprStmt(Assign(x, Number(3.0)))]);
    FallThroughBlock(fmt);
    assert ExecuteAll([PrintStmt(Variable(x))], global, fmt) == Exec(global, [fmt(2.0)], None);
    assert ExecuteAll([block, PrintStmt(Variable(x))], [map["x" := Num(1.0)]], fmt) == Exec(global, [fmt(2.0)], None);
    assert Execute(VarStmt(x, Number(1.0)), Fresh, fmt) == Exec([map["x" := Num(1.0)]], [], None);
  }

  /** The block of `AssignFallThroughRun`: the global ends up holding 2. */
  lemma FallThroughBlock(fmt: NumberFormat)
    ensures Execute(BlockStmt([ExprStmt(Assign(Name("x"), Number(2.0))), ExprStmt(Assign(Name("x"), Number(3.0)))]),
                    [map["x" := Num(1.0)]], fmt)
              == Exec([map["x" := Num(2.0)]], [], None)
  {
    var x := Name("x");
    var start := [map["x" := Num(1.0)], map[]];
    var afterFirst := [map["x" := Num(2.0)], map["x" := Num(2.0)]];
    var afterSecond := [map["x" := Num(2.0)], map["x" := Num(3.0)]];
    var body := [ExprStmt(Assign(x, Number(2.0))), ExprStmt(Assign(x, Number(3.0)))];
    FallThroughFirst(fmt);
    FallThroughSecond(fmt);
    assert ExecuteAll(body[1..], afterFirst, fmt) == Exec(afterSecond, [], None);
    assert ExecuteAll(body, start, fmt) == Exec(afterSecond, [], None);
    assert [map["x" := Num(1.0)]] + [map[]] == start;
  }

  lemma FallThroughFirst(fmt: NumberFormat)
    ensures Execute(ExprStmt(Assign(Name("x"), Number(2.0))), [map["x" := Num(1.0)], map[]], fmt)
              == Exec([map["x" := Num(2.0)], map["x" := Num(2.0)]], [], None)
  {
    FallThroughAssigns(Name("x"));
  }

  lemma FallThroughSecond(fmt: NumberFormat)
    ensures Execute(ExprStmt(Assign(Name("x"), Number(3.0))), [map["x" := Num(2.0)], map["x" := Num(2.0)]], fmt)
              == Exec([map["x" := Num(2.0)], map["x" := Num(3.0)]], [], None)
  {
    FallThroughAssigns(Name("x"));
  }

  /** The two assignments of `FallThroughBlock`, scope by scope. */
  lemma FallThroughAssigns(x: Token)
    requires x == Name("x")
    ensures Environment.Assign([map["x" := Num(1.0)], map[]], x, Num(2.0))
              == Success([map["x" := Num(2.0)], map["x" := Num(2.0)]])
    ensures Environment.Assign([map["x" := Num(2.0)], map["x" := Num(2.0)]], x, Num(3.0))
              == Success([map["x" := Num(2.0)], map["x" := Num(3.0)]])
  {
    var start := [map["x" := Num(1.0)], map[]];
    var global := [map["x" := Num(2.0)]];
    var afterFirst := [map["x" := Num(2.0)], map["x" := Num(2.0)]];
    assert map["x" := Num(1.0)]["x" := Num(2.0)] == global[0];
    assert start[..1][..0] + [start[0]["x" := Num(2.0)]] == global;
    assert Environment.Assign(start[..1], x, Num(2.0)) == Success(global);
    assert start[1]["x" := Num(2.0)] == map["x" := Num(2.0)];
    assert start[..1] == [map["x" := Num(1.0)]];
    assert global + [start[1]["x" := Num(2.0)]] == afterFirst;
    assert afterFirst[1]["x" := Num(3.0)] == map["x" := Num(3.0)];
    assert afterFirst[..1] + [afterFirst[1]["x" := Num(3.0)]] == [map["x" := Num(2.0)], map["x" := Num(3.0)]];
  }

  /** `x = 1;` without a declaration reports "Undefined variable x." and
      creates no global. */
  lemma UndeclaredAssignRun(fmt: NumberFormat)
    ensures Interpret([ExprStmt(Assign(Name("x"), Number(1.0)))], Fresh, fmt)
              == Outcome(Fresh, [], [RuntimeError(Name("x"), "Undefined variable x.")])
  {
    assert "Undefined variable " + "x" + "." == "Undefined variable x.";
    assert !Bound(Fresh, "x");
  }

  /** `var x = 0; print nil + (x = 1);` reports the bad operands, yet the
      assignment inside the failed expression has already happened. */
  lemma EffectBeforeErrorRun(fmt: NumberFormat)
    ensures Interpret([VarStmt(Name("x"), Number(0.0)),
                       PrintStmt(Binary(Literal(Nil), Op(Plus, "+"), Grouping(Assign(Name("x"), Number(1.0)))))], Fresh, fmt)
              == Outcome([map["x" := Num(1.0)]], [], [RuntimeError(Op(Plus, "+"), "Operands for '+' must be two numbers or two strings")])
  {
    var x := Name("x");
    var before := [map["x" := Num(0.0)]];
    var after := [map["x" := Num(1.0)]];
    var plus := Op(Plus, "+");
    var failure := RuntimeError(plus, "Operands for '+' must be two numbers or two strings");
    var sum := Binary(Literal(Nil), plus, Grouping(Assign(x, Number(1.0))));
    assert Execute(VarStmt(x, Number(0.0)), Fresh, fmt) == Exec(before, [], None);
    AssignThenFail(fmt);
    assert Execute(PrintStmt(sum), before, fmt) == Exec(after, [], Some(failure));
    assert [VarStmt(x, Number(0.0)), PrintStmt(sum)][1..] == [PrintStmt(sum)];
  }

  /** The right operand's assignment lands before `+` rejects its operands. */
  lemma AssignThenFail(fmt: NumberFormat)
    ensures Evaluate(Binary(Literal(Nil), Op(Plus, "+"), Grouping(Assign(Name("x"), Number(1.0)))), [map["x" := Num(0.0)]], fmt)
              == Eval([map["x" := Num(1.0)]], Failure(RuntimeError(Op(Plus, "+"), "Operands for '+' must be two numbers or two strings")))
  {
    var x := Name("x");
    var before := [map["x" := Num(0.0)]];
    var after := [map["x" := Num(1.0)]];
    assert before[0]["x" := Num(1.0)] == after[0];
    assert before[..0] + [before[0]["x" := Num(1.0)]] == after;
    assert Environment.Assign(before, x, Num(1.0)) == Success(after);
    assert Evaluate(Grouping(Assign(x, Number(1.0))), before, fmt) == Eval(after, Success(Num(1.0)));
  }
}
