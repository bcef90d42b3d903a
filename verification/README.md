# tslox in Dafny

A functional model of the core of tslox, a tree-walking interpreter for a small
Lox-like language written in TypeScript. The model covers the whole pipeline.
It also proves the properties that the source code promises.

- **Scanner.** One pass over the source text. It produces the tokens, closed by
  a single end-of-input token, and the errors reported along the way.
- **Parser.** Recursive descent over the token list for `print` statements,
  expression statements and the precedence levels equality > comparison >
  term > factor > unary > primary.
- **Interpreter.** Evaluates the full syntax tree over the values nil, boolean,
  number and string. The tree includes variables, assignment, declarations and
  blocks.
- **Environment.** The chain of variable scopes.
- **AST printer.** The debugging printer that writes prefix form.

## How the model is built

- `wrappers.dfy` (`Wrappers`): `Option` and `Result`.
- `values.dfy` (`Values`): `Value`, `Stringify` and `TemplateText`.
- `tokens.dfy` (`Tokens`): token kinds and `Token`.
- `runtime_error.dfy` (`RuntimeErrors`): `RuntimeError`.
- `ast.dfy` (`Ast`): `Expr` and `Stmt`.
- `scanner.dfy` (`Scanner`): the scanner.
- `parser.dfy` (`Parser`): the parser.
- `environment.dfy` (`Environment`): the scope chain.
- `interpreter.dfy` (`Interpreter`): the interpreter.
- `astprinter.dfy` (`AstPrinter`): the printer.
- `scenarios.dfy` (`Scenarios`): whole runs of small programs.

A thrown error becomes the `Failure` case of a `Result`.

- **Scanner.** A step function (`ScanToken`) computes the cursor, the line, an
  optional token and an optional error for one lexeme. `ScanFrom` is the loop.
- **Parser.** Every parsing function takes the token list and a cursor. It
  returns the node and the next cursor, or the first `ParseError`.
- **Environment.** It is `seq<map<string, Value>>`, with the global scope first
  and the current scope last.
- **Interpreter.** Evaluation returns the scope chain afterwards together with
  the value or the error, so that side effects made before an error are kept.
  Statements also return the printed lines.
- **Host conversions.** Number formatting (JavaScript `Number.prototype.toString`)
  is a parameter `fmt: real -> string` of everything that prints. `parseFloat`
  is modelled as the exact decimal value of the lexeme over `real`.

### Where the model follows the code rather than its evident intent

In the places below the code does something other than what it evidently
aims at. The model follows the code.

- **Parser recovery.** Error recovery by synchronisation is written
  (`synchronize`, parser.ts:119-139) but never called. `parse` has no `catch`,
  so the first syntax error aborts the whole parse (parser.ts:16-20).
- **Parser grammar.** The token kinds, the syntax tree and the interpreter
  cover declarations, blocks, variables and assignment. The parser in
  parser.ts handles only `print` statements, expression statements and
  literal, grouping, unary and binary expressions. The parser model builds
  exactly those. The interpreter model still takes every node kind.
- **Assignment.** `assign` in environment.ts:17-24 looks for the name in the
  enclosing scope when the current one does not bind it. That recursive call
  does not return, so the current scope is written too. So every scope from
  the nearest binding one out to the current one ends up holding the value.
  `Environment.Assign` models this as written. `Scenarios.AssignFallThroughRun`
  shows a visible effect: after `var x = 1; { x = 2; x = 3; }` the global `x`
  is 2.
- **The parse check in lox.ts.** An empty statement list is still truthy in
  JavaScript, so the `if (!ast)` check at lox.ts:47 never fires. The driver is
  not part of this model.

## Model

| member | source | states |
|---|---|---|
| Values.TemplateDiffersOnlyOnNil | interpreter.ts:119-127 | The text an error message interpolates differs from the printed form exactly for nil, which appears as `null` in messages and as `nil` in output. |
| Values.PrintedFormsCollide | interpreter.ts:129-132 | nil, true and false print exactly like the strings "nil", "true" and "false". |
| Scanner.ScanTokens | scanner.ts:17-24 | The tokens are exactly the tokens of the lexeme steps the loop takes from position 0 on line 1, one for each step that adds one, in the order the steps are taken and with repeats kept, followed by one end-of-input token with an empty lexeme, a nil literal and line 1 + (newlines in the source). The errors are exactly the errors of those steps, in the same order, so a character the scanner rejects twice is reported twice. The tokens lie in the source in order: each is a non-empty slice of the source that starts at or after the end of the token before it, carries the line reached at its end, and is not end-of-input. |
| Scanner.ScanFrom | scanner.ts:18-23 | From a cursor, the loop returns the tokens gathered so far, then the token of every step it takes from that cursor in the order taken, then the end-of-input token on line 1 + (newlines in the source). The errors are those gathered so far followed by the error of every step, in order. |
| Scanner.ScanFromCollected | scanner.ts:18-23 | Nothing is lost or invented: beyond what was gathered before the cursor, every token and every error in the result comes from a step the loop reaches from the cursor, and every step it reaches has its token and its error in the result. |
| Scanner.ScanTokensCollected | scanner.ts:17-24 | The tokens before the end-of-input token, and all the errors, are exactly the tokens and errors of the steps the loop reaches from position 0. |
| Scanner.StepTokensLaid | scanner.ts:18-23 | The tokens of the steps from a cursor lie in the source in order after the tokens gathered before the cursor. |
| Scanner.TwoStrayCharacters | scanner.ts:17-24 | Two characters outside the lexical grammar on line 1 give the error "Unexpected character." twice, once per step, and no token other than end-of-input. |
| Scanner.ScanStepInvariant | scanner.ts:164-167 | One iteration keeps the loop invariant. The cursor moves forward, and the line is 1 + (newlines before the new cursor). A token that `addToken` adds is the slice from the lexeme's start to the cursor, stamped with the line there, and it lies after every earlier token. |
| Scanner.LaidAppend | scanner.ts:164-166 | A token that ends at e and starts at or after the end of the tokens gathered so far extends them, still in source order. |
| Scanner.CollectStep | scanner.ts:18-21 | The steps the loop takes from a cursor are the step there followed by the steps from where it leaves off. So what is collected from the next cursor on, plus this step's token and error, is everything collected from this cursor on. |
| Scanner.ScanToken | scanner.ts:27-67 | Each lexeme moves the cursor forward. The line counter grows by exactly the newlines consumed. A token added has the consumed slice as its lexeme, carries the line at its end, and is never end-of-input. |
| Scanner.ScanOperator | scanner.ts:29-60 | Punctuation, operators and comments consume one line-free lexeme without error. Each of `( ) { } , . - + ; *` gives its one-character kind over that one character. `!`, `=`, `<` and `>` give the two-character kind over two characters when `=` follows, and the one-character kind over one character otherwise. `//` adds no token and stops at the next newline or at the end. A `/` alone is the division token. Every token added has the consumed slice as its lexeme and that same text as its literal. |
| Scanner.TwoCharOperators | scanner.ts:39-54 | For `!`, `=`, `<` and `>`, a following `=` gives the two-character kind over two characters. Otherwise the one-character kind is produced over one character. |
| Scanner.CommentSkipped | scanner.ts:55-58 | `//` adds no token and no error. It stops at the next newline or at the end, without consuming the newline. |
| Scanner.SlashAlone | scanner.ts:55-59 | A `/` not followed by `/` is the one-character division token. |
| Scanner.NewlineCounted | scanner.ts:62 | A newline adds no token and increases the line by one. |
| Scanner.ScanString | scanner.ts:69-84 | A string runs to the first closing quote. The lexeme keeps the quotes, the literal is the text between them, and newlines inside count. Without a closing quote the rest of the input is consumed and "Unterminated string." is reported. |
| Scanner.StringScanned | scanner.ts:69-83 | With a closing quote at j and no quote before it: the cursor ends at j + 1, the line has grown by the newlines inside, and the token is the quoted slice with the inner text as its literal. |
| Scanner.StringUnterminated | scanner.ts:69-78 | With no closing quote: no token, the cursor at the end, and "Unterminated string." reported on the line reached. |
| Scanner.ScanNumber | scanner.ts:86-96 | A number lexeme is a maximal digit run. A fraction is taken only when `.` is followed by a digit, and is then a maximal digit run. The literal is the decimal value of the lexeme. |
| Scanner.DecimalBounds | scanner.ts:94 | The value of a number lexeme lies between the value of its integer digits and the next integer: the fraction digits add less than one. |
| Scanner.DecimalExample | scanner.ts:94 | `12.5` is a number lexeme and denotes twelve and a half. |
| Scanner.LeadingZero | scanner.ts:94 | Putting a `0` in front of a number lexeme gives a number lexeme with the same value, so `007` denotes 7. |
| Scanner.NumberScanned | scanner.ts:86-92 | At a digit, the step produces a number token whose lexeme has number shape and is maximal. A trailing `.` with no digit after it is left unconsumed. |
| Scanner.IdentifierKind | scanner.ts:101-118 | The 16 keyword spellings get their keyword kinds, as the keyword table lists them. Every other text is an identifier. |
| Scanner.ScanIdentifier | scanner.ts:98-119 | An identifier is a maximal `[A-Za-z0-9_]` run with a nil literal. Its kind comes from the keyword table. |
| Scanner.IdentifierScanned | scanner.ts:98-134 | At a letter or `_`, the step produces a maximal alphanumeric token whose kind is the keyword's kind exactly when the lexeme is a keyword. |
| Scanner.UnexpectedCharacter | scanner.ts:61-66 | "Unexpected character." is reported exactly for characters outside the lexical grammar. The character is skipped, no token is added, and scanning goes on. |
| Parser.Advance | parser.ts:157-160 | The cursor moves by one, except at an end-of-input token, where it stays. |
| Parser.Consume | parser.ts:174-177 | Consume succeeds exactly when the current token has the expected kind and is not end-of-input. Otherwise it fails with the message at the current token. |
| Parser.Expression | parser.ts:39-41 | A parsed expression consumes at least one token and never moves the cursor past the end-of-input token. It is a tree of the equality level, and the consumed tokens spell exactly that tree. A literal is its one token, a grouping is `(`, the inner tokens and `)`, a unary node is its operator followed by the operand's tokens, and a binary node is the left tokens, its operator token and the right tokens. The parse is maximal: the token after it is no binary operator of any level. |
| Parser.BinaryLevel | parser.ts:43-89 | Each binary level yields a tree of that level, and the consumed tokens spell exactly that tree. A binary node there carries one of the level's operators, a left operand of the same level and a right operand of the level below. So the trees are left-associative and respect precedence. The parse is maximal: the token after it is no operator of this level or of a level below. |
| Parser.Operand | parser.ts:43-89 | The operand of a binary level is a tree of the level below, spelled by the consumed tokens, and the token after it is no operator of that lower level or of any level under it. |
| Parser.LevelLoop | parser.ts:82-86 | With no operator of the level at the cursor, the tree so far is the result and nothing more is consumed. Otherwise the result is a binary node with one of the level's operators, and the tree so far sits at the bottom of its left spine: each new operand is folded onto the tree built so far. The tokens from the level's start spell the result. When the cursor follows a maximal operand, the loop stops only at a token that is no operator of this level or below. |
| Parser.UnaryExpr | parser.ts:91-99 | The result is a tree of the unary level: unary nodes with `!` or `-` over a literal or a grouping. The consumed tokens spell it. |
| Parser.Primary | parser.ts:101-117 | Primary yields a literal or a grouping, spelled by the consumed tokens. At end of input, or at a token that cannot start an expression, it fails with "Expected expression." at that token. |
| Parser.GroupingAt | parser.ts:110-113 | A grouping is `(`, an expression and `)`, and those tokens spell it. When the inner expression fails, its error is the result. When it is followed by `)`, the result is the grouping of exactly that expression, ending after the `)`. Otherwise it fails with "Expected ')' after expression." at the token found. |
| Parser.PrimaryGrouping | parser.ts:101-113 | At `(`, primary is exactly the grouping branch: no literal branch applies. |
| Parser.Statement | parser.ts:22-25 | A successful statement is a `print` statement exactly when it starts with `print`, its expression is a tree of the equality level, and the consumed tokens spell it: `print`, the expression's tokens and `;`, or the expression's tokens and `;`. |
| Parser.StatementParses | parser.ts:22-37 | After the optional `print`, a statement holds exactly the expression parsed there and ends on the `;` right after it. A failing expression is the statement's failure. An expression followed by `;` always makes a statement. An expression followed by anything else fails with "Expected ';' after value." at that token. |
| Parser.PrintStatement | parser.ts:27-31 | The statement holds exactly the expression parsed after `print` and ends on the `;` right after it. An expression followed by `;` always makes a print statement. A failing expression is the statement's failure. When the expression is not followed by `;`, the result is "Expected ';' after value." at the token found instead. |
| Parser.ExpressionStatement | parser.ts:33-37 | The statement holds exactly the expression parsed at the cursor and ends on the `;` right after it. An expression followed by `;` always makes an expression statement. A failing expression is the statement's failure. When the expression is not followed by `;`, the result is "Expected ';' after value." at the token found instead. |
| Parser.ParseFrom | parser.ts:16-20 | Statements already parsed are kept as a prefix. On success the new statements are those that `statement` parses one after another from the cursor, each starting where the one before ended, up to an end-of-input token; their tokens spell them in order. On failure, the statements from the cursor parse one after another up to some statement, and the error is the one that statement fails with. When the statement at the cursor fails, its error is the result. |
| Parser.ParseFromSucceeds | parser.ts:18 | A statement parsed at the cursor, followed by a successful rest of the loop, is a successful loop from the cursor with that statement first. |
| Parser.ParseFromFails | parser.ts:18 | A statement parsed at the cursor, followed by a rest of the loop that fails at some statement, is a loop from the cursor that fails at that same statement. |
| Parser.Parse | parser.ts:16-20 | A successful parse is the statements parsed one after another from the first token up to an end-of-input token, spelling those tokens in order. A failed parse is the error of the first statement that fails after the ones before it parsed. A list holding only the end-of-input token parses to the empty list. |
| Parser.PrimaryLiterals | parser.ts:102-108 | At `false`, `true` or `nil`, primary yields literal false, true or nil. At a number or string token it yields a literal holding the token's literal. In each case it consumes exactly that token. |
| Parser.UnaryNests | parser.ts:91-96 | `!` and `-` take a unary expression as their operand, so they nest to the right. |
| Parser.UnclosedGrouping | parser.ts:110-113 | A `(` whose expression is not followed by `)` fails with "Expected ')' after expression." at the token found. |
| Parser.NoOperator | parser.ts:43-89 | When no operator of the level follows its first operand, a binary level returns that operand and stops there. |
| Parser.OneOperator | parser.ts:43-89 | With one operator of the level between two operands and none after, a binary level returns the binary node of the two operands joined by that operator token. |
| Parser.LiteralOperand | parser.ts:43-108 | A literal token followed by no operator of a lower level is, at every level, an operand consisting of just that literal. |
| Parser.NoHigherOperatorBelow | parser.ts:43-89 | A tree of a lower level never has an operator of a higher level at its root. So the right operand of `-` is never an ungrouped `+` or `-`, and `*` never has an ungrouped `+` below it. |
| Parser.FirstErrorAborts | parser.ts:16-20 | When the statement at the cursor fails, the whole parse fails with that error: there is no recovery. |
| Parser.UnaryComplete | parser.ts:91-117 | Completeness of `unary`: every run of tokens that spells a tree of the unary level is parsed by `unary` into exactly that tree, ending right after the run. |
| Parser.GroupingComplete | parser.ts:110-114 | `(`, a run spelling a tree of the equality level and `)` are parsed by `unary` into the grouping of that tree, ending after the `)`. |
| Parser.BinaryComplete | parser.ts:43-89 | Completeness of a binary level: a run that spells a tree of the level, followed by a token that is no operator of that level or below, is parsed by the level into exactly that tree, ending right after the run. |
| Parser.LoopReaches | parser.ts:43-89 | When a run spelling a tree of the level is followed by one of the level's operators, the level's loop reaches that operator with exactly that tree as the tree so far. |
| Parser.ExpressionComplete | parser.ts:39-41 | Completeness of `expression`: a run that spells a tree of the equality level, followed by no binary operator, is parsed into exactly that tree. |
| Parser.ExpressionParsesIff | parser.ts:39-117 | `expression` yields tree t and stops at e exactly when t is a tree of the equality level, the tokens from the cursor to e spell t, and the token at e is no binary operator. |
| Parser.StatementComplete | parser.ts:22-37 | Completeness of `statement`: a run that spells a print statement or an expression statement whose expression is a tree of the equality level is parsed into exactly that statement, ending right after the `;`. |
| Parser.StatementParsesIff | parser.ts:22-37 | `statement` yields s and stops at e exactly when s is a print or expression statement over a tree of the equality level and the tokens from the cursor to e spell s. |
| Parser.ParseComplete | parser.ts:16-20 | Completeness of `parse`: tokens that split into consecutive runs spelling a list of grammar statements, up to an end-of-input token, parse to exactly that list. |
| Parser.ParseIff | parser.ts:16-20 | `parse` succeeds with the list ss exactly when every statement of ss is a grammar statement and the tokens up to some end-of-input token split into consecutive runs that spell ss in order. |
| Environment.Define | environment.ts:13-15 | Define binds the name to the value in the current scope and replaces any binding there. Every other name in that scope, and every enclosing scope, is unchanged. |
| Environment.Get | environment.ts:26-33 | Get succeeds exactly when some scope binds the name. It returns the value in the nearest binding scope; otherwise it fails with "Undefined variable <name>.". |
| Environment.Assign | environment.ts:17-24 | Assign succeeds exactly when some scope binds the name. It writes the value into every scope from the nearest binding one out to the current one and leaves scopes further out alone. An unbound name fails with "Undefined variable <name>.". |
| Environment.NilIsBound | environment.ts:27 | A name bound to nil is still found. |
| Environment.GetAfterDefine | environment.ts:13-33 | After define, the name reads back as the new value and every other name reads as before. |
| Environment.GetAfterAssign | environment.ts:17-33 | After a successful assign, the name reads back as the assigned value. |
| Environment.AssignKeepsOthers | environment.ts:17-24 | After a successful assign, every other name reads as before. |
| Interpreter.CheckNumberOperand | interpreter.ts:119-122 | Succeeds with the number exactly for a number. Otherwise fails with "Operand for <op literal> must be a number.". |
| Interpreter.CheckNumberOperands | interpreter.ts:124-127 | Succeeds exactly when both operands are numbers. Otherwise fails with "Operands for <op literal> must be numbers.". |
| Interpreter.BinaryOp | interpreter.ts:26-47 | `+` succeeds exactly on two numbers, giving their sum, or on two strings, giving their concatenation. `==` and `!=` never fail and compare kind and value. The other operators need two numbers. `/` by zero fails with "Division by zero.". Otherwise the result is the ordinary arithmetic or ordering. |
| Interpreter.NumericOp | interpreter.ts:35-47 | Non-numbers fail the operand check before any operator is considered. A zero divisor fails. Each numeric operator's result is its arithmetic or ordering on the two numbers. |
| Interpreter.UnaryOp | interpreter.ts:54-62 | `-` negates a number and fails on anything else. `!` yields the negated truthiness, so only nil and false give true. |
| Interpreter.TruthyNumbersAndStrings | interpreter.ts:114-117 | Only nil and false are falsy. Every number and every string is truthy, including 0 and the empty string. |
| Interpreter.Evaluate | interpreter.ts:22-90 | Evaluating an expression never adds or removes a scope. |
| Interpreter.ExecuteBlock | interpreter.ts:92-104 | After a block the scope chain has its old depth: the block's own scope is dropped on the normal exit and on the error exit alike. |
| Interpreter.Interpret | interpreter.ts:13-19 | A run reports at most one runtime error, and the scope chain keeps its depth. |
| Interpreter.EqualityIsStrict | interpreter.ts:33 | Values of different kinds are never equal. |
| Interpreter.NotEqualNegatesEqual | interpreter.ts:32-33 | `!=` always gives the negation of `==`. |
| Interpreter.OperandsEvaluatedFirst | interpreter.ts:22-24 | The left operand is evaluated first. Its error is the result, and the right operand never runs. Otherwise the right operand runs in the scopes the left one left, and its error is the result. The effects of both remain even when the operator then fails. |
| Interpreter.AssignYieldsValue | interpreter.ts:86-90 | Assigning an evaluated value to a bound name yields that value, and the name then reads back as it. |
| Interpreter.PrintOutputs | interpreter.ts:72-75 | A print statement outputs exactly the printed form of its value, and `nil` for nil. When the expression fails it outputs nothing and carries the error. |
| Interpreter.ExpressionStatementDiscards | interpreter.ts:68-70 | An expression statement evaluates its expression for its effects and prints nothing. It keeps the variables as the expression left them and carries the expression's error, if any. |
| Interpreter.AssignUnboundFails | interpreter.ts:86-90 | Assigning to a name bound nowhere fails with "Undefined variable <name>." and creates no binding. |
| Interpreter.DeclarationDefinesInCurrentScope | interpreter.ts:77-80 | A declaration binds the name in the current scope to the initializer's value, and the enclosing scopes are as the initializer left them. When the initializer fails, nothing is defined and its error stops the statement. |
| Interpreter.EvaluateKeepsEnv | interpreter.ts:22-84 | An expression with no assignment in it leaves the variables untouched. |
| Interpreter.ExecuteKeepsEnclosing | interpreter.ts:92-104 | A statement with no assignment changes at most the current scope. A block changes nothing, on normal exit and on error exit alike. |
| Interpreter.ExecuteAllKeepsEnclosing | interpreter.ts:100 | Statements with no assignment change at most the current scope. |
| Interpreter.BlockRestoresEnvironment | interpreter.ts:92-104 | After a block with no assignment in it, the environment is the one active before it, whether the block finished or failed. |
| Interpreter.EvaluateKeepsName | interpreter.ts:22-90 | An expression that never assigns a name leaves every binding of that name as it was, in every scope. |
| Interpreter.ExecuteKeepsName | interpreter.ts:68-100 | A statement that never assigns a name keeps every binding of it in the enclosing scopes. Only a declaration of that name touches the current scope. A block keeps it in every scope, because what it declares vanishes with its scope. |
| Interpreter.ExecuteAllKeepsName | interpreter.ts:100 | Statements that never assign a name keep every binding of it in the enclosing scopes. |
| Interpreter.BlockFramesUnassigned | interpreter.ts:92-104 | A block is a frame for every name its body never assigns. Each scope outside the block binds such a name afterwards exactly as before, whether the body finished or stopped at an error. |
| Interpreter.ExecuteAllAppend | interpreter.ts:13-19 | Running a then b is running a + b. An error in a stops everything, the outputs concatenate, and b starts from the scopes a left. |
| Interpreter.ExecuteAllCons | interpreter.ts:100 | A list runs its first statement, then the rest from the variables the first left. The outputs concatenate. |
| Interpreter.ErrorComesFromOneStatement | interpreter.ts:13-19 | When a statement list stops with an error, that error comes from one statement, and every statement before it completed without error. |
| Interpreter.StoppedResult | interpreter.ts:13-19 | Where a list stops, its result is the completed statements followed by the failing one. The output is that of both, the variables and error are the failing statement's, and nothing after it runs. |
| Interpreter.InterpretTwice | interpreter.ts:11-19 | Two calls in a row behave like one call on both lists when the first reports nothing. The environment persists between calls. |
| AstPrinter.Print | astPrinter.ts:7-26 | Printing succeeds exactly on trees built from binary, grouping, literal and unary nodes. |
| AstPrinter.BinaryForm | astPrinter.ts:11-13 | A binary node prints as `(op left right)`. |
| AstPrinter.UnaryForm | astPrinter.ts:24-26 | A unary node prints as `(op operand)`. |
| AstPrinter.GroupingForm | astPrinter.ts:15-17 | A grouping prints as `(group inner)`. |
| AstPrinter.LiteralForm | astPrinter.ts:19-22 | A nil literal prints as `nil`. A boolean prints as `true` or `false`, a number as its host text, and a string as itself. |
| AstPrinter.ParenthesizeBalanced | astPrinter.ts:28-35 | Wrapping balanced parts with a parenthesis-free name gives balanced text. |
| AstPrinter.PrintBalanced | astPrinter.ts:28-35 | When no operator lexeme or literal text contains a parenthesis, the printed form has balanced parentheses. |
| Scenarios.PrecedenceRun | interpreter.ts:26-41 | The tree of `print 1 + 2 * 3;` prints 7. |
| Scenarios.PrecedenceParse | parser.ts:16-117 | The tokens of `print 1 + 2 * 3;` parse to exactly one print statement whose tree is `1 + (2 * 3)`: the product is the right operand of the sum. |
| Scenarios.ConcatenationRun | interpreter.ts:26-28 | `print "a" + "b";` prints `ab`. |
| Scenarios.MixedPlusRun | interpreter.ts:26-30 | `print 1 + "b";` prints nothing and reports the `+` error. |
| Scenarios.DivisionByZeroRun | interpreter.ts:37-40 | `print 1 / 0;` reports "Division by zero.". |
| Scenarios.StrictEqualityRun | interpreter.ts:33 | `print 1 == "1";` prints `false`. |
| Scenarios.TruthinessRun | interpreter.ts:114-117 | `print !0; print !nil;` prints `false` then `true`. |
| Scenarios.ErrorStopsRun | interpreter.ts:13-19 | In `print 1; print -"a"; print 2;` the second statement's error stops the run after `1` is printed. |
| Scenarios.NegateStringFails | interpreter.ts:54-58 | `print -"a";` prints nothing and fails with "Operand for - must be a number." at the `-` token. |
| Scenarios.ShadowingRun | interpreter.ts:92-104 | `var x = 1; { var x = 2; print x; } print x;` prints 2 then 1. |
| Scenarios.AssignFallThroughRun | environment.ts:17-24 | `var x = 1; { x = 2; x = 3; } print x;` prints 2: the second assignment writes only the block's copy. |
| Scenarios.UndeclaredAssignRun | environment.ts:17-21 | `x = 1;` with no declaration reports "Undefined variable x." and creates no global. |
| Scenarios.EffectBeforeErrorRun | interpreter.ts:22-30 | In `var x = 0; print nil + (x = 1);` the `+` fails, but `x` is already 1. |
| Scenarios.AssignThenFail | interpreter.ts:22-29 | In `nil + (x = 1)` with `x` bound to 0, the `+` fails with its message, and `x` is 1 afterwards. |

## Left out

- The driver in lox.ts is not part of this model. That covers file and prompt
  input, argument handling, the console format of error reports, and the
  `hadError` flags that decide whether a run goes on to parse and interpret.
- IEEE-754 doubles are not modelled. Numbers are exact reals with no NaN,
  infinities, signed zero or rounding. `parseFloat` is the exact decimal value
  of the lexeme. `Number.prototype.toString` is the parameter `fmt`. So printed
  numbers appear as `fmt(n)`, and `==` on numbers is equality of reals.
- `synchronize` in parser.ts is never called and is left out. Its keyword test
  uses `in` on an array, which checks index positions, and it depends on the
  numeric token kinds of a types file that is not part of this model.
- JavaScript `in` on a plain object also finds inherited keys such as
  `toString`. Scopes are finite maps, so only declared names are bound.
- Exceptions are not modelled as such. A thrown `RuntimeError` or parse error
  is a `Failure`. The rethrow of other exceptions in `interpret` has no
  counterpart, because nothing else is thrown in the model.
- `console.log` is modelled as appending a line to the output sequence.
- The visitor interfaces in visitor.ts are not modelled, because `accept`
  dispatch is an exhaustive `match`. `Token.toString` and the demo expression
  at the end of astPrinter.ts are unused and left out.
- An operator kind the parser never produces gives nil, at interpreter.ts:47
  and 61. This is kept as written.
- The printer has no visitor method for variable and assignment nodes, so the
  host would raise an error there. `AstPrinter.Print` returns `None` instead.
- Source text is a sequence of characters, not of UTF-16 code units. A
  character outside the Basic Multilingual Plane is two code units in
  JavaScript, so where it is not allowed the source reports "Unexpected
  character." twice and the model once. Inside a string literal or a comment
  there is no visible difference.
- Interpreter.Interpret: the contract states only the bound on reports and the
  scope depth. Its behaviour at the first error is stated by
  `ExecuteAllAppend`, `InterpretTwice` and the runs in `Scenarios`.
- Interpreter.BlockRestoresEnvironment: the whole environment is restored only
  for blocks with no assignment in them. Any assignment in a block to a name
  bound outside it changes an enclosing scope, as `assign` is meant to, and
  its fall-through can change more than one (`Scenarios.AssignFallThroughRun`).
  `BlockFramesUnassigned` states the frame property name by name: every name
  the body never assigns is kept in every outer scope. The block's own scope
  is dropped on every exit (`ExecuteBlock`).
- Parser.Statement states the shape of a successful statement in its own
  contract. Its failures are stated by the lemma `StatementParses` (the
  expression's error, or the missing `;`), and the deeper errors where they
  arise: in `Primary` and `GroupingAt`. `ParseFrom` and `Parse` report a
  failure as the error of the failing statement.
