/** Variable storage: a chain of scopes, written as a sequence whose last
    element is the current (innermost) scope and whose first is the global one.
    A name is bound in a scope when it is a key there, whatever its value. */
module Environment {
  import opened Wrappers
  import opened Values
  import opened Tokens
  import opened RuntimeErrors

  type Scope = map<string, Value>

  /** The scope chain, innermost last. The interpreter never lets it be empty. */
  type Env = seq<Scope>

  /** The error for a name bound in no scope. */
  function Undefined(name: Token): RuntimeError {
    RuntimeError(name, "Undefined variable " + name.lexeme + ".")
  }

  // ---------------------------------------------------------------------------
  // Reference definitions

  /** Some scope of the chain binds `x`. */
  predicate Bound(env: Env, x: string) {
    exists i :: 0 <= i < |env| && x in env[i]
  }

  /** Scope `k` is the nearest scope binding `x`, looking outward from the
      current one. */
  predicate IsNearest(env: Env, x: string, k: nat) {
    k < |env| && x in env[k] && forall j :: k < j < |env| ==> x !in env[j]
  }

  /** The index of the nearest scope binding `x`. */
  function Nearest(env: Env, x: string): (k: nat)
    requires Bound(env, x)
    ensures IsNearest(env, x, k)
    decreases |env|
  {
    if x in env[|env| - 1] then |env| - 1
    else Nearest(env[..|env| - 1], x)
  }

  lemma NearestUnique(env: Env, x: string, k: nat, k': nat)
    requires IsNearest(env, x, k) && IsNearest(env, x, k')
    ensures k == k'
  {
  }

  /** Two scopes bind the same names to the same values, except possibly `x`. */
  ghost predicate AgreeExcept(m: Scope, m': Scope, x: string) {
    forall y :: y != x ==> (y in m <==> y in m') && (y in m ==> m[y] == m'[y])
  }

  // ---------------------------------------------------------------------------
  // Operations

  /** `define`: bind `x` in the current scope only, replacing any binding
      there; the enclosing scopes are untouched. */
  function Define(env: Env, x: string, v: Value): (r: Env)
    requires |env| > 0
    ensures |r| == |env|
    ensures forall i :: 0 <= i < |env| - 1 ==> r[i] == env[i]
    ensures x in r[|r| - 1] && r[|r| - 1][x] == v
    ensures AgreeExcept(r[|r| - 1], env[|env| - 1], x)
  {
    env[..|env| - 1] + [env[|env| - 1][x := v]]
  }

  /** `get`: the value in the nearest scope binding the name, or "Undefined
      variable" when no scope binds it. */
  function Get(env: Env, name: Token): (r: Result<Value, RuntimeError>)
    requires |env| > 0
    ensures r.Success? <==> Bound(env, name.lexeme)
    ensures r.Success? ==> r.value == env[Nearest(env, name.lexeme)][name.lexeme]
    ensures r.Failure? ==> r.error == Undefined(name)
    decreases |env|
  {
    var x := name.lexeme;
    if x in env[|env| - 1] then Success(env[|env| - 1][x])
    else if |env| == 1 then Failure(Undefined(name))
    else Get(env[..|env| - 1], name)
  }

  /** `assign`, as written: when the name is not bound in the current scope
      the enclosing chain is assigned first and then, because that call does
      not return, the current scope is written as well. So every scope from
      the nearest binding one out to the current one ends up holding the
      value; scopes further out are untouched. An unbound name is an error
      raised at the outermost scope before any write. */
  function Assign(env: Env, name: Token, v: Value): (r: Result<Env, RuntimeError>)
    requires |env| > 0
    ensures r.Success? <==> Bound(env, name.lexeme)
    ensures r.Failure? ==> r.error == Undefined(name)
    ensures r.Success? ==> |r.value| == |env|
    ensures r.Success? ==> forall i :: 0 <= i < |env| ==>
              r.value[i] == if i >= Nearest(env, name.lexeme) then env[i][name.lexeme := v] else env[i]
    decreases |env|
  {
    var x := name.lexeme;
    var n := |env|;
    if x in env[n - 1] then Success(env[..n - 1] + [env[n - 1][x := v]])
    else if n == 1 then Failure(Undefined(name))
    else
      var outer :- Assign(env[..n - 1], name, v);
      Success(outer + [env[n - 1][x := v]])
  }

  // ---------------------------------------------------------------------------
  // Properties

  /** A name bound to nil is still bound: lookup tests presence, not value. */
  lemma NilIsBound(env: Env, name: Token, i: nat)
    requires |env| > 0 && i < |env| && name.lexeme in env[i] && env[i][name.lexeme] == Nil
    ensures Get(env, name).Success?
  {
  }

  /** After `define`, the name reads back as the defined value and every other
      name reads as before. */
  lemma GetAfterDefine(env: Env, x: string, v: Value, name: Token)
    requires |env| > 0
    ensures name.lexeme == x ==> Get(Define(env, x, v), name) == Success(v)
    ensures name.lexeme != x ==> Get(Define(env, x, v), name) == Get(env, name)
  {
    var r := Define(env, x, v);
    if name.lexeme != x {
      var y := name.lexeme;
      assert forall i :: 0 <= i < |env| ==> (y in r[i] <==> y in env[i]);
      if Bound(env, y) {
        var k := Nearest(env, y);
        assert IsNearest(r, y, k);
        NearestUnique(r, y, k, Nearest(r, y));
      }
    }
  }

  /** After a successful `assign`, the name reads back as the assigned value. */
  lemma GetAfterAssign(env: Env, name: Token, v: Value)
    requires |env| > 0 && Assign(env, name, v).Success?
    ensures Get(Assign(env, name, v).value, name) == Success(v)
  {
    var r := Assign(env, name, v).value;
    assert r[|r| - 1] == env[|env| - 1][name.lexeme := v];
  }

  /** A successful `assign` leaves every other name reading as before. */
  lemma AssignKeepsOthers(env: Env, name: Token, v: Value, other: Token)
    requires |env| > 0 && Assign(env, name, v).Success?
    requires other.lexeme != name.lexeme
    ensures Get(Assign(env, name, v).value, other) == Get(env, other)
  {
    var r := Assign(env, name, v).value;
    var y := other.lexeme;
    assert forall i :: 0 <= i < |env| ==> AgreeExcept(r[i], env[i], name.lexeme);
    assert forall i :: 0 <= i < |env| ==> (y in r[i] <==> y in env[i]);
    if Bound(env, y) {
      var k := Nearest(env, y);
      assert IsNearest(r, y, k);
      NearestUnique(r, y, k, Nearest(r, y));
    }
  }
}
