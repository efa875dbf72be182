/**
 The two forms of a variable, spelled out: what a text of one variable gives when the variable is set and
 when it is not, with a default and without, and what texts without variables give.
*/
module EnvsubstForms {
  import opened Wrappers
  import opened Text
  import opened Envsubst

  ghost predicate NoPair(s: string, c: char, d: char) {
    forall i | 0 <= i < |s| - 1 && s[i] == c :: s[i + 1] != d
  }

  lemma {:induction false} NoPairFound(s: string, i: nat, c: char, d: char)
    requires i <= |s| && NoPair(s, c, d)
    ensures FindPair(s, i, c, d) == None
    decreases |s| - i
  {
    if i < |s| {
      assert !PairAt(s, i, c, d);
      NoPairFound(s, i + 1, c, d);
    }
  }

  /** A text in which nothing opens stays as it is. */
  lemma PlainText(s: string, env: Environment)
    requires NoPair(s, '$', '{')
    ensures Expand(s, 0, env) == Ok(s)
  {
    NoPairFound(s, 0, '$', '{');
    BetweenIsSlice(s, 0, |s|);
    assert s[0..|s|] == s;
  }

  lemma {:induction false} FirstChar(s: string, i: nat, n: nat, c: char)
    requires i <= n < |s| && s[n] == c && forall k | i <= k < n :: s[k] != c
    ensures FindChar(s, i, c) == Some(n)
    decreases n - i
  {
    if i < n {
      FirstChar(s, i + 1, n, c);
    }
  }

  lemma {:induction false} NoChar(s: string, i: nat, c: char)
    requires i <= |s| && forall k | i <= k < |s| :: s[k] != c
    ensures FindChar(s, i, c) == None
    decreases |s| - i
  {
    if i < |s| {
      NoChar(s, i + 1, c);
    }
  }

  lemma {:induction false} FirstPair(s: string, i: nat, n: nat, c: char, d: char)
    requires i <= n && PairAt(s, n, c, d) && forall k | i <= k < n && s[k] == c :: s[k + 1] != d
    ensures FindPair(s, i, c, d) == Some(n)
    decreases n - i
  {
    if i < n {
      assert !PairAt(s, i, c, d);
      FirstPair(s, i + 1, n, c, d);
    }
  }

  /** An opening that nothing closes is an error at its place. */
  lemma NeverClosed(rest: string, env: Environment)
    requires '}' !in rest
    ensures Expand("${" + rest, 0, env) == Err(Unterminated(0))
  {
    var s := "${" + rest;
    assert PairAt(s, 0, '$', '{') && s[0] == '$';
    assert forall k | 2 <= k < |s| :: s[k] == rest[k - 2];
    NoChar(s, 2, '}');
  }

  /** One expression in braces gives its value. */
  lemma OneExpression(expr: string, env: Environment)
    requires '}' !in expr
    ensures Expand("${" + expr + "}", 0, env) == Value(SplitEnvExpr(expr), env)
  {
    var s := "${" + expr + "}";
    var end := 2 + |expr|;
    assert PairAt(s, 0, '$', '{') && s[end] == '}';
    assert forall k | 2 <= k < end :: s[k] == expr[k - 2];
    FirstChar(s, 2, end, '}');
    BetweenIsSlice(s, 2, end);
    assert s[2..end] == expr;
    ExpandOpenAt(s, 0, end, expr, env);
    LastExpression(s, expr, env);
  }

  lemma LastExpression(s: string, expr: string, env: Environment)
    requires |s| >= 2 && FindPair(s, 0, '$', '{') == Some(0)
    requires ExpandOpen(s, 0, env) == Then(Value(SplitEnvExpr(expr), env), Expand(s, |s|, env))
    ensures Expand(s, 0, env) == Value(SplitEnvExpr(expr), env)
  {
    var value := Value(SplitEnvExpr(expr), env);
    assert Expand(s, |s|, env) == Ok("");
    if value.Ok? {
      assert value.text + "" == value.text && "" + value.text == value.text;
    }
  }

  /** A name: what may stand before the braces close or a default begins. */
  ghost predicate Name(key: string) {
    '}' !in key && NoPair(key, ':', '-')
  }

  /** ${key} gives the variable's value, and an error naming it if it is not set. */
  lemma Required(key: string, env: Environment)
    requires Name(key)
    ensures Expand("${" + key + "}", 0, env) == if env(key).Some? then Ok(env(key).value) else Err(Missing(key))
  {
    OneExpression(key, env);
    NoPairFound(key, 0, ':', '-');
  }

  lemma KeyAndDefault(key: string, default: string)
    requires Name(key)
    ensures SplitEnvExpr(key + ":-" + default) == Expression(key, Some(default))
  {
    var expr, n := key + ":-" + default, |key|;
    assert PairAt(expr, n, ':', '-');
    forall k | 0 <= k < n && expr[k] == ':'
      ensures expr[k + 1] != '-'
    {
      assert expr[k] == key[k] && (k + 1 < n ==> expr[k + 1] == key[k + 1]);
      assert k + 1 == n ==> expr[k + 1] == ':';
    }
    FirstPair(expr, 0, n, ':', '-');
    BetweenIsSlice(expr, 0, n);
    BetweenIsSlice(expr, n + 2, |expr|);
    assert expr[0..n] == key && expr[n + 2..|expr|] == default;
  }

  /** ${key:-default} gives the variable's value, and the default, which may be empty, if it is not set. */
  lemma WithDefault(key: string, default: string, env: Environment)
    requires Name(key) && '}' !in default
    ensures Expand("${" + (key + ":-" + default) + "}", 0, env)
         == Ok(if env(key).Some? then env(key).value else default)
  {
    OneExpression(key + ":-" + default, env);
    KeyAndDefault(key, default);
  }
}
