/** The debugging printer: an expression as a fully parenthesised prefix form,
    `(op left right)`, `(op operand)` and `(group inner)`, with literals in
    their printed form. It has visitor methods for the four expression kinds
    of the original grammar only. */
module AstPrinter {
  import opened Wrappers
  import opened Values
  import opened Tokens
  import opened Ast

  // ---------------------------------------------------------------------------
  // Printing

  /** The expressions the printer can visit: built from binary, grouping,
      literal and unary nodes alone. A variable or assignment node anywhere
      has no visitor method, and the host raises an error instead. */
  predicate Printable(e: Expr)
    decreases e
  {
    match e
    case Binary(left, _, right) => Printable(left) && Printable(right)
    case Grouping(inner) => Printable(inner)
    case Literal(_) => true
    case Unary(_, operand) => Printable(operand)
    case Variable(_) => false
    case Assign(_, _) => false
  }

  /** The parts of `parenthesize` after the name, each preceded by a space. */
  function Spaced(parts: seq<string>): string {
    if |parts| == 0 then "" else " " + parts[0] + Spaced(parts[1..])
  }

  /** `parenthesize`: the name and the parts, inside one pair of parentheses. */
  function Parenthesize(name: string, parts: seq<string>): string {
    "(" + name + Spaced(parts) + ")"
  }

  /** `print`: `None` where the host has no visitor method for a node. */
  function Print(e: Expr, fmt: NumberFormat): (r: Option<string>)
    ensures r.Some? <==> Printable(e)
    decreases e
  {
    match e
    case Binary(left, op, right) =>
      var l := Print(left, fmt);
      var r := Print(right, fmt);
      if l.Some? && r.Some? then Some(Parenthesize(op.lexeme, [l.value, r.value])) else None
    case Grouping(inner) =>
      var i := Print(inner, fmt);
      if i.Some? then Some(Parenthesize("group", [i.value])) else None
    case Literal(v) => Some(Stringify(v, fmt))
    case Unary(op, operand) =>
      var o := Print(operand, fmt);
      if o.Some? then Some(Parenthesize(op.lexeme, [o.value])) else None
    case Variable(_) => None
    case Assign(_, _) => None
  }

  /** A binary node prints as `(op left right)`. */
  lemma BinaryForm(left: Expr, op: Token, right: Expr, fmt: NumberFormat)
    requires Printable(left) && Printable(right)
    ensures Print(Binary(left, op, right), fmt)
              == Some("(" + op.lexeme + " " + Print(left, fmt).value + " " + Print(right, fmt).value + ")")
  {
    ParenthesizeTwo(op.lexeme, Print(left, fmt).value, Print(right, fmt).value);
  }

  /** A unary node prints as `(op operand)`. */
  lemma UnaryForm(op: Token, operand: Expr, fmt: NumberFormat)
    requires Printable(operand)
    ensures Print(Unary(op, operand), fmt) == Some("(" + op.lexeme + " " + Print(operand, fmt).value + ")")
  {
    ParenthesizeOne(op.lexeme, Print(operand, fmt).value);
  }

  /** A grouping prints as `(group inner)`. */
  lemma GroupingForm(inner: Expr, fmt: NumberFormat)
    requires Printable(inner)
    ensures Print(Grouping(inner), fmt) == Some("(group " + Print(inner, fmt).value + ")")
  {
    var a := Print(inner, fmt).value;
    ParenthesizeOne("group", a);
    assert "(" + "group" + " " == "(group ";
  }

  /** A literal prints as `nil` for nil and as the value's own text
      otherwise. */
  lemma LiteralForm(v: Value, fmt: NumberFormat)
    ensures Print(Literal(v), fmt) == Some(match v
                                          case Nil => "nil"
                                          case Bool(b) => if b then "true" else "false"
                                          case Num(n) => fmt(n)
                                          case Str(s) => s)
  {
  }

  lemma ParenthesizeOne(name: string, a: string)
    ensures Parenthesize(name, [a]) == "(" + name + " " + a + ")"
  {
    assert [a][1..] == [];
    assert Spaced([a]) == " " + a;
    assert "(" + name + (" " + a) == "(" + name + " " + a;
  }

  lemma ParenthesizeTwo(name: string, a: string, b: string)
    ensures Parenthesize(name, [a, b]) == "(" + name + " " + a + " " + b + ")"
  {
    assert [a, b][1..] == [b];
    assert [b][1..] == [];
    assert Spaced([b]) == " " + b;
    assert Spaced([a, b]) == " " + a + (" " + b);
    assert "(" + name + (" " + a + (" " + b)) == "(" + name + " " + a + " " + b;
  }

  // ---------------------------------------------------------------------------
  // Balanced parentheses

  /** Opening minus closing parentheses. */
  function Depth(s: string): int {
    if |s| == 0 then 0
    else (if s[0] == '(' then 1 else if s[0] == ')' then -1 else 0) + Depth(s[1..])
  }

  /** Every parenthesis is closed, and none is closed before it is opened. */
  ghost predicate Balanced(s: string) {
    Depth(s) == 0 && forall k :: 0 <= k <= |s| ==> Depth(s[..k]) >= 0
  }

  predicate ParenFree(s: string) {
    '(' !in s && ')' !in s
  }

  /** The text the printer copies from the tree, operator lexemes and literal
      text, contains no parenthesis. */
  predicate PlainText(e: Expr, fmt: NumberFormat)
    decreases e
  {
    match e
    case Binary(left, op, right) => ParenFree(op.lexeme) && PlainText(left, fmt) && PlainText(right, fmt)
    case Grouping(inner) => PlainText(inner, fmt)
    case Literal(v) => ParenFree(Stringify(v, fmt))
    case Unary(op, operand) => ParenFree(op.lexeme) && PlainText(operand, fmt)
    case Variable(_) => true
    case Assign(_, _) => true
  }

  lemma {:induction false} DepthAppend(a: string, b: string)
    ensures Depth(a + b) == Depth(a) + Depth(b)
  {
    if |a| > 0 {
      assert (a + b)[1..] == a[1..] + b;
      DepthAppend(a[1..], b);
    } else {
      assert a + b == b;
    }
  }

  lemma {:induction false} ParenFreeDepth(s: string)
    requires ParenFree(s)
    ensures Depth(s) == 0
  {
    if |s| > 0 {
      assert s[0] in s;
      assert forall c :: c in s[1..] ==> c in s;
      ParenFreeDepth(s[1..]);
    }
  }

  lemma ParenFreeBalanced(s: string)
    requires ParenFree(s)
    ensures Balanced(s)
  {
    ParenFreeDepth(s);
    forall k | 0 <= k <= |s| ensures Depth(s[..k]) == 0 {
      assert forall c :: c in s[..k] ==> c in s;
      ParenFreeDepth(s[..k]);
    }
  }

  lemma BalancedAppend(a: string, b: string)
    requires Balanced(a) && Balanced(b)
    ensures Balanced(a + b)
  {
    DepthAppend(a, b);
    forall k | 0 <= k <= |a + b| ensures Depth((a + b)[..k]) >= 0 {
      if k <= |a| {
        assert (a + b)[..k] == a[..k];
      } else {
        assert (a + b)[..k] == a + b[..k - |a|];
        DepthAppend(a, b[..k - |a|]);
      }
    }
  }

  /** One more pair of parentheses around balanced text keeps it balanced. */
  lemma BalancedWrap(s: string)
    requires Balanced(s)
    ensures Balanced("(" + s + ")")
  {
    var w := "(" + s + ")";
    DepthAppend("(" + s, ")");
    DepthAppend("(", s);
    forall k | 0 <= k <= |w| ensures Depth(w[..k]) >= 0 {
      if 0 < k <= |s| + 1 {
        assert w[..k] == "(" + s[..k - 1];
        DepthAppend("(", s[..k - 1]);
      } else if k == |w| {
        assert w[..k] == w;
      }
    }
  }

  lemma {:induction false} SpacedBalanced(parts: seq<string>)
    requires forall i :: 0 <= i < |parts| ==> Balanced(parts[i])
    ensures Balanced(Spaced(parts))
  {
    if |parts| == 0 {
      ParenFreeBalanced("");
    } else {
      SpacedBalanced(parts[1..]);
      ParenFreeBalanced(" ");
      BalancedAppend(" ", parts[0]);
      BalancedAppend(" " + parts[0], Spaced(parts[1..]));
      assert Spaced(parts) == " " + parts[0] + Spaced(parts[1..]);
    }
  }

  lemma ParenthesizeBalanced(name: string, parts: seq<string>)
    requires ParenFree(name)
    requires forall i :: 0 <= i < |parts| ==> Balanced(parts[i])
    ensures Balanced(Parenthesize(name, parts))
  {
    SpacedBalanced(parts);
    ParenFreeBalanced(name);
    BalancedAppend(name, Spaced(parts));
    BalancedWrap(name + Spaced(parts));
    assert Parenthesize(name, parts) == "(" + (name + Spaced(parts)) + ")";
  }

  /** When the copied text has no parentheses of its own, the printed form is
      balanced: every node contributes exactly one matched pair. */
  lemma {:induction false} PrintBalanced(e: Expr, fmt: NumberFormat)
    requires Printable(e) && PlainText(e, fmt)
    ensures Balanced(Print(e, fmt).value)
    decreases e
  {
    match e
    case Binary(left, op, right) =>
      PrintBalanced(left, fmt);
      PrintBalanced(right, fmt);
      ParenthesizeBalanced(op.lexeme, [Print(left, fmt).value, Print(right, fmt).value]);
    case Grouping(inner) =>
      PrintBalanced(inner, fmt);
      ParenthesizeBalanced("group", [Print(inner, fmt).value]);
    case Literal(v) =>
      ParenFreeBalanced(Stringify(v, fmt));
    case Unary(op, operand) =>
      PrintBalanced(operand, fmt);
      ParenthesizeBalanced(op.lexeme, [Print(operand, fmt).value]);
  }
}
