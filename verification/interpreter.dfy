/** The tree-walking interpreter. Expressions evaluate against the scope chain
    (assignment may change it); statements execute in order and produce
    printed lines; the first runtime error aborts the rest of the run, keeping
    every earlier print and every earlier change to the variables. */
module Interpreter {
  import opened Wrappers
  import opened Values
  import opened Tokens
  import opened RuntimeErrors
  import opened Ast
  import opened Environment

  /** The outcome of evaluating an expression: the scope chain afterwards (an
      assignment may have changed it even when a later step failed) and the
      value or the error. */
  datatype Eval = Eval(env: Env, result: Result<Value, RuntimeError>)

  /** The outcome of executing statements: the scope chain afterwards, the
      lines printed, and the error that stopped execution, if any. */
  datatype Exec = Exec(env: Env, out: seq<string>, error: Option<RuntimeError>)

  /** What `interpret` leaves behind: the environment kept for the next call,
      the printed lines and the runtime errors reported. */
  datatype Outcome = Outcome(env: Env, output: seq<string>, reported: seq<RuntimeError>)

  // ---------------------------------------------------------------------------
  // Value rules

  /** `isTruthy`: only nil and false are falsy. */
  predicate IsTruthy(v: Value) {
    !(v == Nil || v == Bool(false))
  }

  /** The operators that demand two numbers. */
  const NumericOperators: seq<TokenType> := [Minus, Slash, Star, Greater, GreaterEqual, Less, LessEqual]

  /** `checkNumberOperand`. */
  function CheckNumberOperand(op: Token, operand: Value, fmt: NumberFormat): (r: Result<real, RuntimeError>)
    ensures r.Success? <==> operand.Num?
    ensures r.Success? ==> r.value == operand.n
    ensures r.Failure? ==> r.error == RuntimeError(op, "Operand for " + TemplateText(op.literal, fmt) + " must be a number.")
  {
    if operand.Num? then Success(operand.n)
    else Failure(RuntimeError(op, "Operand for " + TemplateText(op.literal, fmt) + " must be a number."))
  }

  /** `checkNumberOperands`. */
  function CheckNumberOperands(op: Token, left: Value, right: Value, fmt: NumberFormat): (r: Result<(real, real), RuntimeError>)
    ensures r.Success? <==> left.Num? && right.Num?
    ensures r.Success? ==> r.value == (left.n, right.n)
    ensures r.Failure? ==> r.error == RuntimeError(op, "Operands for " + TemplateText(op.literal, fmt) + " must be numbers.")
  {
    if left.Num? && right.Num? then Success((left.n, right.n))
    else Failure(RuntimeError(op, "Operands for " + TemplateText(op.literal, fmt) + " must be numbers."))
  }

  /** The operator step of `visitBinaryExpression`, once both operands are
      values. */
  function BinaryOp(op: Token, left: Value, right: Value, fmt: NumberFormat): (r: Result<Value, RuntimeError>)
    // `+`: two numbers add, two strings concatenate, anything else fails
    ensures op.kind == Plus ==> (r.Success? <==> (left.Num? && right.Num?) || (left.Str? && right.Str?))
    ensures op.kind == Plus && left.Num? && right.Num? ==> r == Success(Num(left.n + right.n))
    ensures op.kind == Plus && left.Str? && right.Str? ==> r == Success(Str(left.s + right.s))
    ensures op.kind == Plus && r.Failure? ==>
              r.error == RuntimeError(op, "Operands for '+' must be two numbers or two strings")
    // `==` and `!=` never fail and never coerce
    ensures op.kind == EqualEqual ==> r.Success? && r.value.Bool? && (r.value.b <==> left == right)
    ensures op.kind == BangEqual ==> r.Success? && r.value.Bool? && (r.value.b <==> left != right)
    // every other operator demands two numbers; `/` also a non-zero divisor
    ensures op.kind in NumericOperators ==>
              (r.Success? <==> left.Num? && right.Num? && !(op.kind == Slash && right.n == 0.0))
    ensures op.kind in NumericOperators && !(left.Num? && right.Num?) ==>
              r.error == RuntimeError(op, "Operands for " + TemplateText(op.literal, fmt) + " must be numbers.")
    ensures op.kind == Slash && left.Num? && right == Num(0.0) ==> r == Failure(RuntimeError(op, "Division by zero."))
    ensures op.kind in NumericOperators && r.Success? ==> r.value == NumericResult(op.kind, left.n, right.n)
  {
    if op.kind == Plus then
      if left.Num? && right.Num? then Success(Num(left.n + right.n))
      else if left.Str? && right.Str? then Success(Str(left.s + right.s))
      else Failure(RuntimeError(op, "Operands for '+' must be two numbers or two strings"))
    else if op.kind == BangEqual then Success(Bool(left != right))
    else if op.kind == EqualEqual then Success(Bool(left == right))
    else NumericOp(op, left, right, fmt)
  }

  /** The remaining operators of `visitBinaryExpression`: both operands are
      checked to be numbers first, then the operator applies (an operator the
      parser never produces yields nil). */
  function NumericOp(op: Token, left: Value, right: Value, fmt: NumberFormat): (r: Result<Value, RuntimeError>)
    ensures !(left.Num? && right.Num?) ==>
              r == Failure(RuntimeError(op, "Operands for " + TemplateText(op.literal, fmt) + " must be numbers."))
    ensures op.kind in NumericOperators ==>
              (r.Success? <==> left.Num? && right.Num? && !(op.kind == Slash && right.n == 0.0))
    ensures op.kind == Slash && left.Num? && right == Num(0.0) ==> r == Failure(RuntimeError(op, "Division by zero."))
    ensures op.kind in NumericOperators && r.Success? ==> r.value == NumericResult(op.kind, left.n, right.n)
  {
    var (a, b) :- CheckNumberOperands(op, left, right, fmt);
    if op.kind == Minus then Success(Num(a - b))
    else if op.kind == Slash then
      if b == 0.0 then Failure(RuntimeError(op, "Division by zero."))
      else Success(Num(a / b))
    else if op.kind == Star then assert NumericResult(Star, a, b) == Num(a * b); Success(Num(a * b))
    else if op.kind == Greater then Success(Bool(a > b))
    else if op.kind == GreaterEqual then Success(Bool(a >= b))
    else if op.kind == Less then Success(Bool(a < b))
    else if op.kind == LessEqual then Success(Bool(a <= b))
    else Success(Nil)
  }

  /** The ordinary arithmetic and ordering on numbers, one case per operator. */
  function NumericResult(kind: TokenType, a: real, b: real): Value
    requires kind in NumericOperators
    requires kind == Slash ==> b != 0.0
  {
    match kind
    case Minus => Num(a - b)
    case Slash => Num(a / b)
    case Star => Num(a * b)
    case Greater => Bool(a > b)
    case GreaterEqual => Bool(a >= b)
    case Less => Bool(a < b)
    case LessEqual => Bool(a <= b)
  }

  /** The operator step of `visitUnaryExpression`. */
  function UnaryOp(op: Token, operand: Value, fmt: NumberFormat): (r: Result<Value, RuntimeError>)
    ensures op.kind == Minus ==> (r.Success? <==> operand.Num?)
    ensures op.kind == Minus && operand.Num? ==> r == Success(Num(-operand.n))
    ensures op.kind == Minus && !operand.Num? ==>
              r == Failure(RuntimeError(op, "Operand for " + TemplateText(op.literal, fmt) + " must be a number."))
    ensures op.kind == Bang ==> r == Success(Bool(operand == Nil || operand == Bool(false)))
  {
    if op.kind == Minus then
      var n :- CheckNumberOperand(op, operand, fmt);
      Success(Num(-n))
    else if op.kind == Bang then Success(Bool(!IsTruthy(operand)))
    else Success(Nil)
  }

  // ---------------------------------------------------------------------------
  // Expressions

  /** `evaluate`: the `visit*Expression` methods. Operands are evaluated left
      then right before the operator looks at them. */
  function Evaluate(e: Expr, env: Env, fmt: NumberFormat): (r: Eval)
    requires |env| > 0
    ensures |r.env| == |env|
    decreases e
  {
    match e
    case Binary(left, op, right) =>
      var l := Evaluate(left, env, fmt);
      if l.result.Failure? then l
      else
        var r := Evaluate(right, l.env, fmt);
        if r.result.Failure? then r
        else Eval(r.env, BinaryOp(op, l.result.value, r.result.value, fmt))
    case Grouping(inner) => Evaluate(inner, env, fmt)
    case Literal(v) => Eval(env, Success(v))
    case Unary(op, operand) =>
      var o := Evaluate(operand, env, fmt);
      if o.result.Failure? then o
      else Eval(o.env, UnaryOp(op, o.result.value, fmt))
    case Variable(name) => Eval(env, Get(env, name))
    case Assign(name, rhs) => AssignStep(name, Evaluate(rhs, env, fmt))
  }

  /** `visitAssignementExpression` once the right-hand side is evaluated: the
      value is stored with `assign` and is also the expression's value. */
  function AssignStep(name: Token, v: Eval): (r: Eval)
    requires |v.env| > 0
    ensures |r.env| == |v.env|
  {
    if v.result.Failure? then v
    else
      match Environment.Assign(v.env, name, v.result.value)
      case Failure(err) => Eval(v.env, Failure(err))
      case Success(env') => Eval(env', v.result)
  }

  // ---------------------------------------------------------------------------
  // Statements

  /** `execute`: the `visit*Statement` methods. */
  function Execute(s: Stmt, env: Env, fmt: NumberFormat): (r: Exec)
    requires |env| > 0
    ensures |r.env| == |env|
    decreases s, 1
  {
    match s
    case ExprStmt(e) =>
      var v := Evaluate(e, env, fmt);
      Exec(v.env, [], ErrorOf(v.result))
    case PrintStmt(e) =>
      var v := Evaluate(e, env, fmt);
      if v.result.Failure? then Exec(v.env, [], Some(v.result.error))
      else Exec(v.env, [Stringify(v.result.value, fmt)], None)
    case VarStmt(name, init) =>
      var v := Evaluate(init, env, fmt);
      if v.result.Failure? then Exec(v.env, [], Some(v.result.error))
      else Exec(Define(v.env, name.lexeme, v.result.value), [], None)
    case BlockStmt(body) => ExecuteBlock(body, env, fmt)
  }

  function ErrorOf(r: Result<Value, RuntimeError>): Option<RuntimeError> {
    if r.Failure? then Some(r.error) else None
  }

  /** `executeBlock` for a block statement: run the body in a fresh scope
      enclosed by the current one, then drop that scope, on the normal exit
      and on the error exit alike. */
  function ExecuteBlock(body: seq<Stmt>, env: Env, fmt: NumberFormat): (r: Exec)
    requires |env| > 0
    ensures |r.env| == |env|
    decreases body, 1
  {
    var inner := ExecuteAll(body, env + [map[]], fmt);
    Exec(inner.env[..|env|], inner.out, inner.error)
  }

  /** Statements in order until the first error. */
  function ExecuteAll(ss: seq<Stmt>, env: Env, fmt: NumberFormat): (r: Exec)
    requires |env| > 0
    ensures |r.env| == |env|
    decreases ss, 0
  {
    if |ss| == 0 then Exec(env, [], None)
    else
      var first := Execute(ss[0], env, fmt);
      if first.error.Some? then first
      else
        var rest := ExecuteAll(ss[1..], first.env, fmt);
        Exec(rest.env, first.out + rest.out, rest.error)
  }

  /** `interpret`: run the statements against the persistent environment and
      report the runtime error that stopped them, if any, once. */
  function Interpret(ss: seq<Stmt>, env: Env, fmt: NumberFormat): (r: Outcome)
    requires |env| > 0
    ensures |r.env| == |env| && |r.reported| <= 1
  {
    var x := ExecuteAll(ss, env, fmt);
    Outcome(x.env, x.out, if x.error.Some? then [x.error.value] else [])
  }

  // ---------------------------------------------------------------------------
  // Properties of the value rules

  /** `==` is strict: values of different kinds are never equal. */
  lemma EqualityIsStrict(op: Token, a: Value, b: Value, fmt: NumberFormat)
    requires op.kind == EqualEqual && KindOf(a) != KindOf(b)
    ensures BinaryOp(op, a, b, fmt) == Success(Bool(false))
  {
  }

  /** `!=` is the negation of `==` on every pair of values. */
  lemma NotEqualNegatesEqual(eq: Token, ne: Token, a: Value, b: Value, fmt: NumberFormat)
    requires eq.kind == EqualEqual && ne.kind == BangEqual
    ensures BinaryOp(ne, a, b, fmt).Success? && BinaryOp(eq, a, b, fmt).Success?
    ensures BinaryOp(ne, a, b, fmt).value == Bool(!BinaryOp(eq, a, b, fmt).value.b)
  {
  }

  /** Only nil and false are falsy: every number and every string is truthy,
      zero and the empty string included. */
  lemma TruthyNumbersAndStrings(v: Value)
    ensures !IsTruthy(v) ==> v == Nil || v == Bool(false)
    ensures v.Num? || v.Str? ==> IsTruthy(v)
    ensures IsTruthy(Num(0.0)) && IsTruthy(Str(""))
  {
  }

  // ---------------------------------------------------------------------------
  // Properties of evaluation

  /** Both operands are evaluated, left then right, before the operator checks
      them: a type error leaves the effects of both operands in place, and an
      error in the left operand means the right one is never evaluated. */
  lemma OperandsEvaluatedFirst(left: Expr, op: Token, right: Expr, env: Env, fmt: NumberFormat)
    requires |env| > 0
    ensures var l := Evaluate(left, env, fmt);
      l.result.Failure? ==> Evaluate(Binary(left, op, right), env, fmt) == l
    ensures var l := Evaluate(left, env, fmt);
      l.result.Success? ==>
        var r := Evaluate(right, l.env, fmt);
        && (r.result.Failure? ==> Evaluate(Binary(left, op, right), env, fmt) == r)
        && (r.result.Success? ==> Evaluate(Binary(left, op, right), env, fmt).env == r.env)
  {
  }

  /** Once the right-hand side has produced a value and some scope binds the
      name, an assignment expression succeeds, yields that value, and the name
      then reads back as it. */
  lemma AssignYieldsValue(name: Token, v: Eval)
    requires |v.env| > 0 && v.result.Success? && Bound(v.env, name.lexeme)
    ensures AssignStep(name, v).result == v.result
    ensures Get(AssignStep(name, v).env, name) == v.result
  {
    GetAfterAssign(v.env, name, v.result.value);
  }

  /** A print statement outputs one line, the printed form of its value (`nil`
      for nil), and nothing when the expression fails. */
  lemma PrintOutputs(e: Expr, env: Env, fmt: NumberFormat)
    requires |env| > 0
    ensures var v := Evaluate(e, env, fmt);
      var r := Execute(PrintStmt(e), env, fmt);
      && r.env == v.env
      && (v.result.Success? ==> r.out == [Stringify(v.result.value, fmt)] && r.error == None)
      && (v.result.Success? && v.result.value == Nil ==> r.out == ["nil"])
      && (v.result.Failure? ==> r.out == [] && r.error == Some(v.result.error))
  {
  }

  /** Assigning a name no scope binds fails with "Undefined variable" and
      creates no binding: the chain is as the right-hand side left it. */
  lemma AssignUnboundFails(name: Token, rhs: Expr, env: Env, fmt: NumberFormat)
    requires |env| > 0
    requires Evaluate(rhs, env, fmt).result.Success?
    requires !Bound(Evaluate(rhs, env, fmt).env, name.lexeme)
    ensures Evaluate(Assign(name, rhs), env, fmt) == Eval(Evaluate(rhs, env, fmt).env, Failure(Undefined(name)))
  {
  }

  /** An expression statement evaluates its expression for the effects alone:
      it prints nothing, keeps the variables as the expression left them,
      discards the value, and carries the expression's error if it failed. */
  lemma ExpressionStatementDiscards(e: Expr, env: Env, fmt: NumberFormat)
    requires |env| > 0
    ensures var v := Evaluate(e, env, fmt);
      var r := Execute(ExprStmt(e), env, fmt);
      && r.out == [] && r.env == v.env
      && (r.error.None? <==> v.result.Success?)
      && (v.result.Failure? ==> r.error == Some(v.result.error))
  {
  }

  /** A declaration binds its name in the current scope to the initializer's
      value and leaves the enclosing scopes as the initializer left them; when
      the initializer fails, nothing is defined and its error stops the
      statement. */
  lemma DeclarationDefinesInCurrentScope(name: Token, init: Expr, env: Env, fmt: NumberFormat)
    requires |env| > 0
    ensures var v := Evaluate(init, env, fmt);
      var r := Execute(VarStmt(name, init), env, fmt);
      && r.out == []
      && (v.result.Success? ==>
            && r.error == None
            && r.env[..|env| - 1] == v.env[..|env| - 1]
            && name.lexeme in r.env[|env| - 1]
            && Get(r.env, name) == v.result)
      && (v.result.Failure? ==> r.env == v.env && r.error == Some(v.result.error))
  {
    var v := Evaluate(init, env, fmt);
    if v.result.Success? {
      GetAfterDefine(v.env, name.lexeme, v.result.value, name);
    }
  }

  // ---------------------------------------------------------------------------
  // Scoping of blocks

  predicate NoAssignExpr(e: Expr) {
    match e
    case Binary(l, _, r) => NoAssignExpr(l) && NoAssignExpr(r)
    case Grouping(inner) => NoAssignExpr(inner)
    case Literal(_) => true
    case Unary(_, operand) => NoAssignExpr(operand)
    case Variable(_) => true
    case Assign(_, _) => false
  }

  /** Statements containing no assignment expression. */
  predicate NoAssign(s: Stmt)
    decreases s, 1
  {
    match s
    case ExprStmt(e) => NoAssignExpr(e)
    case PrintStmt(e) => NoAssignExpr(e)
    case VarStmt(_, init) => NoAssignExpr(init)
    case BlockStmt(body) => NoAssignAll(body)
  }

  predicate NoAssignAll(ss: seq<Stmt>)
    decreases ss, 0
  {
    |ss| == 0 || (NoAssign(ss[0]) && NoAssignAll(ss[1..]))
  }

  /** Without assignment, evaluation does not touch the variables. */
  lemma {:induction false} EvaluateKeepsEnv(e: Expr, env: Env, fmt: NumberFormat)
    requires |env| > 0 && NoAssignExpr(e)
    ensures Evaluate(e, env, fmt).env == env
    decreases e
  {
    match e
    case Binary(l, _, r) =>
      EvaluateKeepsEnv(l, env, fmt);
      EvaluateKeepsEnv(r, env, fmt);
    case Grouping(inner) => EvaluateKeepsEnv(inner, env, fmt);
    case Literal(_) =>
    case Unary(_, operand) => EvaluateKeepsEnv(operand, env, fmt);
    case Variable(_) =>
  }

  /** Without assignment, a statement can change only the current scope, and
      a block not even that: its declarations vanish with its scope, on the
      normal and on the error exit alike. */
  lemma {:induction false} ExecuteKeepsEnclosing(s: Stmt, env: Env, fmt: NumberFormat)
    requires |env| > 0 && NoAssign(s)
    ensures Execute(s, env, fmt).env[..|env| - 1] == env[..|env| - 1]
    ensures s.BlockStmt? ==> Execute(s, env, fmt).env == env
    decreases s, 1
  {
    match s
    case ExprStmt(e) => EvaluateKeepsEnv(e, env, fmt);
    case PrintStmt(e) => EvaluateKeepsEnv(e, env, fmt);
    case VarStmt(_, init) => EvaluateKeepsEnv(init, env, fmt);
    case BlockStmt(body) =>
      var inner := env + [map[]];
      ExecuteAllKeepsEnclosing(body, inner, fmt);
      assert inner[..|inner| - 1] == env;
  }

  lemma {:induction false} ExecuteAllKeepsEnclosing(ss: seq<Stmt>, env: Env, fmt: NumberFormat)
    requires |env| > 0 && NoAssignAll(ss)
    ensures ExecuteAll(ss, env, fmt).env[..|env| - 1] == env[..|env| - 1]
    decreases ss, 0
  {
    if |ss| > 0 {
      var first := Execute(ss[0], env, fmt);
      ExecuteKeepsEnclosing(ss[0], env, fmt);
      if first.error.None? {
        ExecuteAllKeepsEnclosing(ss[1..], first.env, fmt);
      }
    }
  }

  /** A block of statements without assignment leaves the environment exactly
      as it found it. */
  lemma BlockRestoresEnvironment(body: seq<Stmt>, env: Env, fmt: NumberFormat)
    requires |env| > 0 && NoAssignAll(body)
    ensures Execute(BlockStmt(body), env, fmt).env == env
  {
    ExecuteKeepsEnclosing(BlockStmt(body), env, fmt);
  }

  // ---------------------------------------------------------------------------
  // Names a block never assigns

  /** No assignment expression in `e` targets the name `x`. */
  predicate NoAssignToExpr(e: Expr, x: string) {
    match e
    case Binary(l, _, r) => NoAssignToExpr(l, x) && NoAssignToExpr(r, x)
    case Grouping(inner) => NoAssignToExpr(inner, x)
    case Literal(_) => true
    case Unary(_, operand) => NoAssignToExpr(operand, x)
    case Variable(_) => true
    case Assign(name, rhs) => name.lexeme != x && NoAssignToExpr(rhs, x)
  }

  predicate NoAssignTo(s: Stmt, x: string)
    decreases s, 1
  {
    match s
    case ExprStmt(e) => NoAssignToExpr(e, x)
    case PrintStmt(e) => NoAssignToExpr(e, x)
    case VarStmt(_, init) => NoAssignToExpr(init, x)
    case BlockStmt(body) => NoAssignToAll(body, x)
  }

  predicate NoAssignToAll(ss: seq<Stmt>, x: string)
    decreases ss, 0
  {
    |ss| == 0 || (NoAssignTo(ss[0], x) && NoAssignToAll(ss[1..], x))
  }

  /** Every one of the first `n` scopes of the two chains binds `x` alike:
      both or neither, and to the same value. */
  ghost predicate SameFor(env: Env, env': Env, x: string, n: nat) {
    && n <= |env| && n <= |env'|
    && forall i :: 0 <= i < n ==> (x in env[i] <==> x in env'[i]) && (x in env[i] ==> env[i][x] == env'[i][x])
  }

  /** Assigning another name leaves every binding of `x` alone. */
  lemma AssignOtherKeeps(env: Env, name: Token, v: Value, x: string)
    requires |env| > 0 && name.lexeme != x && Environment.Assign(env, name, v).Success?
    ensures SameFor(Environment.Assign(env, name, v).value, env, x, |env|)
  {
  }

  /** An expression that never assigns `x` leaves every binding of `x` as it
      was, in every scope. */
  lemma {:induction false} EvaluateKeepsName(e: Expr, env: Env, fmt: NumberFormat, x: string)
    requires |env| > 0 && NoAssignToExpr(e, x)
    ensures SameFor(Evaluate(e, env, fmt).env, env, x, |env|)
    decreases e
  {
    match e
    case Binary(l, _, r) =>
      var lv := Evaluate(l, env, fmt);
      EvaluateKeepsName(l, env, fmt, x);
      if lv.result.Success? {
        EvaluateKeepsName(r, lv.env, fmt, x);
      }
    case Grouping(inner) => EvaluateKeepsName(inner, env, fmt, x);
    case Literal(_) =>
    case Unary(_, operand) => EvaluateKeepsName(operand, env, fmt, x);
    case Variable(_) =>
    case Assign(name, rhs) =>
      var v := Evaluate(rhs, env, fmt);
      EvaluateKeepsName(rhs, env, fmt, x);
      if v.result.Success? && Bound(v.env, name.lexeme) {
        AssignOtherKeeps(v.env, name, v.result.value, x);
      }
  }

  /** A statement that never assigns `x` keeps every binding of `x` in the
      enclosing scopes; only a declaration of `x` itself touches the current
      scope, and a block keeps `x` everywhere, since whatever it declares
      vanishes with its scope. */
  lemma {:induction false} ExecuteKeepsName(s: Stmt, env: Env, fmt: NumberFormat, x: string)
    requires |env| > 0 && NoAssignTo(s, x)
    ensures SameFor(Execute(s, env, fmt).env, env, x, |env| - 1)
    ensures !(s.VarStmt? && s.name.lexeme == x) ==> SameFor(Execute(s, env, fmt).env, env, x, |env|)
    decreases s, 1
  {
    match s
    case ExprStmt(e) => EvaluateKeepsName(e, env, fmt, x);
    case PrintStmt(e) => EvaluateKeepsName(e, env, fmt, x);
    case VarStmt(_, init) => EvaluateKeepsName(init, env, fmt, x);
    case BlockStmt(body) =>
      ExecuteAllKeepsName(body, env + [map[]], fmt, x);
  }

  lemma {:induction false} ExecuteAllKeepsName(ss: seq<Stmt>, env: Env, fmt: NumberFormat, x: string)
    requires |env| > 0 && NoAssignToAll(ss, x)
    ensures SameFor(ExecuteAll(ss, env, fmt).env, env, x, |env| - 1)
    decreases ss, 0
  {
    if |ss| > 0 {
      var first := Execute(ss[0], env, fmt);
      ExecuteKeepsName(ss[0], env, fmt, x);
      if first.error.None? {
        ExecuteAllKeepsName(ss[1..], first.env, fmt, x);
      }
    }
  }

  /** `executeBlock` is a frame for every name its body never assigns: each
      scope outside the block binds such a name afterwards exactly as before,
      whether the body finished or stopped at an error. */
  lemma BlockFramesUnassigned(body: seq<Stmt>, env: Env, fmt: NumberFormat, x: string)
    requires |env| > 0 && NoAssignToAll(body, x)
    ensures SameFor(ExecuteBlock(body, env, fmt).env, env, x, |env|)
  {
    ExecuteKeepsName(BlockStmt(body), env, fmt, x);
  }

  // ---------------------------------------------------------------------------
  // Runs

  /** Running `a` then `b` is running `a + b`: execution stops at the first
      error (nothing of `b` runs after an error in `a`), output accumulates,
      and the environment `a` leaves is the one `b` starts from. So a second
      `interpret` call continues from the first one's environment. */
  lemma {:induction false} ExecuteAllAppend(a: seq<Stmt>, b: seq<Stmt>, env: Env, fmt: NumberFormat)
    requires |env| > 0
    ensures var ra := ExecuteAll(a, env, fmt);
      ExecuteAll(a + b, env, fmt) ==
        if ra.error.Some? then ra
        else var rb := ExecuteAll(b, ra.env, fmt); Exec(rb.env, ra.out + rb.out, rb.error)
    decreases |a|
  {
    if |a| == 0 {
      assert a + b == b;
    } else {
      assert (a + b)[0] == a[0];
      assert (a + b)[1..] == a[1..] + b;
      var first := Execute(a[0], env, fmt);
      if first.error.None? {
        ExecuteAllAppend(a[1..], b, first.env, fmt);
      }
    }
  }

  /** The statement list stops at statement `k`: every statement before it
      ran without error and statement `k` failed. */
  predicate StopsAt(ss: seq<Stmt>, env: Env, fmt: NumberFormat, k: nat)
    requires |env| > 0 && k < |ss|
  {
    var before := ExecuteAll(ss[..k], env, fmt);
    before.error.None? && Execute(ss[k], before.env, fmt).error.Some?
  }

  /** An error that stops a statement list comes from one statement, after
      all the ones before it completed. */
  lemma {:induction false} ErrorComesFromOneStatement(ss: seq<Stmt>, env: Env, fmt: NumberFormat)
    requires |env| > 0 && ExecuteAll(ss, env, fmt).error.Some?
    ensures exists k :: 0 <= k < |ss| && StopsAt(ss, env, fmt, k)
    decreases |ss|
  {
    var first := Execute(ss[0], env, fmt);
    if first.error.Some? {
      assert ss[..0] == [];
      assert StopsAt(ss, env, fmt, 0);
    } else {
      ErrorComesFromOneStatement(ss[1..], first.env, fmt);
      var k :| 0 <= k < |ss[1..]| && StopsAt(ss[1..], first.env, fmt, k);
      StopsLater(ss[0], ss[1..], env, fmt, k);
      assert [ss[0]] + ss[1..] == ss;
    }
  }

  lemma StopsLater(s: Stmt, rest: seq<Stmt>, env: Env, fmt: NumberFormat, k: nat)
    requires |env| > 0 && k < |rest|
    requires Execute(s, env, fmt).error.None?
    requires StopsAt(rest, Execute(s, env, fmt).env, fmt, k)
    ensures StopsAt([s] + rest, env, fmt, k + 1)
  {
    var ss := [s] + rest;
    assert ss[..k + 1] == [s] + rest[..k];
    assert ss[k + 1] == rest[k];
    ExecuteAllCons(s, rest[..k], env, fmt);
  }

  /** Where a list stops, its result is that of the completed statements
      before the failing one followed by the failing one: the output of both,
      the failing statement's variables and error, and nothing of what
      follows. */
  lemma StoppedResult(ss: seq<Stmt>, env: Env, fmt: NumberFormat, k: nat)
    requires |env| > 0 && k < |ss| && StopsAt(ss, env, fmt, k)
    ensures var before := ExecuteAll(ss[..k], env, fmt);
      var last := Execute(ss[k], before.env, fmt);
      ExecuteAll(ss, env, fmt) == Exec(last.env, before.out + last.out, last.error)
  {
    var before := ExecuteAll(ss[..k], env, fmt);
    var tail := ss[k..];
    assert ss == ss[..k] + tail;
    ExecuteAllAppend(ss[..k], tail, env, fmt);
    assert tail[0] == ss[k];
  }

  /** A statement list is its first statement, then the rest from where the
      first left the variables. */
  lemma ExecuteAllCons(s: Stmt, rest: seq<Stmt>, env: Env, fmt: NumberFormat)
    requires |env| > 0 && Execute(s, env, fmt).error.None?
    ensures var first := Execute(s, env, fmt);
      var r := ExecuteAll(rest, first.env, fmt);
      ExecuteAll([s] + rest, env, fmt) == Exec(r.env, first.out + r.out, r.error)
  {
    var ss := [s] + rest;
    assert ss[0] == s && ss[1..] == rest;
  }

  /** Two `interpret` calls in a row behave like one call on both statement
      lists when the first reports nothing; when it reports an error, the
      second list would not have run at all. */
  lemma InterpretTwice(a: seq<Stmt>, b: seq<Stmt>, env: Env, fmt: NumberFormat)
    requires |env| > 0
    ensures var ra := Interpret(a, env, fmt);
      && (ra.reported == [] ==>
            var rb := Interpret(b, ra.env, fmt);
            Interpret(a + b, env, fmt) == Outcome(rb.env, ra.output + rb.output, rb.reported))
      && (ra.reported != [] ==> Interpret(a + b, env, fmt) == ra)
  {
    ExecuteAllAppend(a, b, env, fmt);
  }
}
