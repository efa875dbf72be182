/**
 Substitution of environment variables in configuration text. The method scans once;
 its meaning is given by parsing the text into segments and rendering each segment once, so that a
 substituted value is never scanned again.
*/
module Envsubst {
  import opened Wrappers
  import opened Text

  type Environment = string -> Option<string>

  datatype Error = Unterminated(offset: nat) | Missing(key: string)
  datatype Result = Ok(text: string) | Err(error: Error)

  // ---- Positions in a text ----

  /** s[i..j], read one character at a time. */
  function Between(s: string, i: nat, j: nat): string
    requires i <= j <= |s|
    decreases j - i
  {
    if i == j then "" else [s[i]] + Between(s, i + 1, j)
  }

  lemma {:induction false} BetweenIsSlice(s: string, i: nat, j: nat)
    requires i <= j <= |s|
    ensures Between(s, i, j) == s[i..j]
    decreases j - i
  {
    if i < j {
      BetweenIsSlice(s, i + 1, j);
    }
  }

  lemma {:induction false} BetweenSplit(s: string, i: nat, k: nat, j: nat)
    requires i <= k <= j <= |s|
    ensures Between(s, i, j) == Between(s, i, k) + Between(s, k, j)
    decreases k - i
  {
    if i < k {
      BetweenSplit(s, i + 1, k, j);
      Assoc([s[i]], Between(s, i + 1, k), Between(s, k, j));
    }
  }

  lemma {:induction false} BetweenShift(a: string, b: string, i: nat, j: nat)
    requires i <= j <= |b|
    ensures Between(a + b, |a| + i, |a| + j) == Between(b, i, j)
    decreases j - i
  {
    if i < j {
      BetweenShift(a, b, i + 1, j);
      assert (a + b)[|a| + i] == b[i];
    }
  }

  lemma {:induction false} BetweenFirst(a: string, b: string, i: nat, j: nat)
    requires i <= j <= |a|
    ensures Between(a + b, i, j) == Between(a, i, j)
    decreases j - i
  {
    if i < j {
      BetweenFirst(a, b, i + 1, j);
    }
  }

  /** Where the character first occurs at or after i. */
  function FindChar(s: string, i: nat, c: char): (r: Option<nat>)
    requires i <= |s|
    ensures r.Some? ==> i <= r.value < |s| && s[r.value] == c
    decreases |s| - i
  {
    if i == |s| then None else if s[i] == c then Some(i) else FindChar(s, i + 1, c)
  }

  predicate PairAt(s: string, i: nat, c: char, d: char) {
    i + 2 <= |s| && s[i] == c && s[i + 1] == d
  }

  /** Where the two characters first occur together at or after i. */
  function FindPair(s: string, i: nat, c: char, d: char): (r: Option<nat>)
    requires i <= |s|
    ensures r.Some? ==> i <= r.value && PairAt(s, r.value, c, d)
    decreases |s| - i
  {
    if i == |s| then None else if PairAt(s, i, c, d) then Some(i) else FindPair(s, i + 1, c, d)
  }

  /** Nothing is found before the place that is found. */
  lemma {:induction false} FoundFirst(s: string, i: nat, c: char, d: char, k: nat)
    requires i <= k < |s|
    ensures s[k] == c ==> FindChar(s, i, c).Some? && FindChar(s, i, c).value <= k
    ensures PairAt(s, k, c, d) ==> FindPair(s, i, c, d).Some? && FindPair(s, i, c, d).value <= k
    decreases k - i
  {
    if i < k {
      FoundFirst(s, i + 1, c, d, k);
    }
  }

  // ---- Segments ----

  /** What is between the braces: a key, and a default if there is one. */
  datatype Expression = Expression(key: string, default: Option<string>)

  /** The key, and the default after the first separator. */
  function SplitEnvExpr(expr: string): Expression {
    match FindPair(expr, 0, ':', '-')
    case None => Expression(expr, None)
    case Some(at) => Expression(Between(expr, 0, at), Some(Between(expr, at + 2, |expr|)))
  }

  function PrintExpression(e: Expression): string {
    match e.default
    case None => e.key
    case Some(text) => e.key + ":-" + text
  }

  lemma TwoCharacters(s: string, at: nat, c: char, d: char)
    requires PairAt(s, at, c, d)
    ensures Between(s, at, at + 2) == [c, d]
  {
    assert Between(s, at + 1, at + 2) == [d] + Between(s, at + 2, at + 2);
  }

  lemma SplitPrints(expr: string)
    ensures PrintExpression(SplitEnvExpr(expr)) == expr
  {
    var at := FindPair(expr, 0, ':', '-');
    if at.Some? {
      TwoCharacters(expr, at.value, ':', '-');
      BetweenSplit(expr, 0, at.value, |expr|);
      BetweenSplit(expr, at.value, at.value + 2, |expr|);
      Assoc(Between(expr, 0, at.value), ":-", Between(expr, at.value + 2, |expr|));
      BetweenIsSlice(expr, 0, |expr|);
    }
  }

  /** The expression is split at its first separator. */
  lemma SplitsAtFirst(expr: string, k: nat)
    requires PairAt(expr, k, ':', '-')
    ensures SplitEnvExpr(expr).default.Some? && |SplitEnvExpr(expr).key| <= k
  {
    FoundFirst(expr, 0, ':', '-', k);
    BetweenIsSlice(expr, 0, FindPair(expr, 0, ':', '-').value);
  }

  datatype Segment =
    | Literal(text: string)
    | Variable(expression: Expression)
    | Open(offset: nat, text: string)

  /** The segments of s from position i on. */
  function Segments(s: string, i: nat): seq<Segment>
    requires i <= |s|
    decreases |s| - i
  {
    if i == |s| then []
    else
      match FindPair(s, i, '$', '{')
      case None => [Literal(Between(s, i, |s|))]
      case Some(start) => [Literal(Between(s, i, start))] + AfterOpen(s, start)
  }

  /** From an opening on: a variable and what follows it, or an opening that is never closed. */
  function AfterOpen(s: string, start: nat): seq<Segment>
    requires start + 2 <= |s|
    decreases |s| - start, 0
  {
    match FindChar(s, start + 2, '}')
    case None => [Open(start, Between(s, start + 2, |s|))]
    case Some(end) => [Variable(SplitEnvExpr(Between(s, start + 2, end)))] + Segments(s, end + 1)
  }

  function Print(segments: seq<Segment>): string {
    if segments == [] then "" else PrintSegment(segments[0]) + Print(segments[1..])
  }

  function PrintSegment(segment: Segment): string {
    match segment
    case Literal(text) => text
    case Variable(expression) => "${" + PrintExpression(expression) + "}"
    case Open(_, text) => "${" + text
  }

  // ---- Rendering ----

  function Value(e: Expression, env: Environment): (r: Result)
    ensures r.Err? ==> r.error.Missing?
  {
    var value := env(e.key);
    if value.Some? then Ok(value.value)
    else if e.default.Some? then Ok(e.default.value)
    else Err(Missing(e.key))
  }

  /** The text first, then the rest, unless the rest fails. */
  function Before(text: string, rest: Result): Result {
    if rest.Ok? then Ok(text + rest.text) else rest
  }

  /** One result, then the other, unless the first fails. */
  function Then(first: Result, second: Result): Result {
    if first.Ok? then Before(first.text, second) else first
  }

  /** A segment, then the rest, unless the segment fails. */
  function RenderOne(segment: Segment, rest: Result, env: Environment): Result {
    match segment
    case Literal(text) => Before(text, rest)
    case Open(offset, _) => Err(Unterminated(offset))
    case Variable(expression) =>
      Then(Value(expression, env), rest)
  }

  /** Each segment once, from left to right, up to the first that fails. */
  function Render(segments: seq<Segment>, env: Environment): Result {
    if segments == [] then Ok("") else RenderOne(segments[0], Render(segments[1..], env), env)
  }

  /** The text from position i on, substituted in one scan. */
  function Expand(s: string, i: nat, env: Environment): Result
    requires i <= |s|
    decreases |s| - i, 1
  {
    var start := FindPair(s, i, '$', '{');
    if start.None? then Ok(Between(s, i, |s|)) else Before(Between(s, i, start.value), ExpandOpen(s, start.value, env))
  }

  /** The text from an opening on. */
  function ExpandOpen(s: string, start: nat, env: Environment): Result
    requires start + 2 <= |s|
    decreases |s| - start, 0
  {
    var end := FindChar(s, start + 2, '}');
    if end.None? then Err(Unterminated(start))
    else
      Then(Value(SplitEnvExpr(Between(s, start + 2, end.value)), env), Expand(s, end.value + 1, env))
  }

  lemma RenderFirst(segment: Segment, rest: seq<Segment>, env: Environment)
    ensures Render([segment] + rest, env) == RenderOne(segment, Render(rest, env), env)
  {
    assert ([segment] + rest)[1..] == rest;
  }

  lemma RenderLiteral(text: string, env: Environment)
    ensures Render([Literal(text)], env) == Ok(text)
  {
    RenderFirst(Literal(text), [], env);
    assert [Literal(text)] + [] == [Literal(text)];
    assert text + "" == text;
  }

  /** The scan renders each segment once, so a substituted value is never scanned again. */
  lemma {:induction false} ExpandRendersSegments(s: string, i: nat, env: Environment)
    requires i <= |s|
    ensures Expand(s, i, env) == Render(Segments(s, i), env)
    decreases |s| - i, 1
  {
    var start := FindPair(s, i, '$', '{');
    if i == |s| {
    } else if start.None? {
      RenderLiteral(Between(s, i, |s|), env);
    } else {
      OpenRendersSegments(s, start.value, env);
      RenderFirst(Literal(Between(s, i, start.value)), AfterOpen(s, start.value), env);
    }
  }

  lemma {:induction false} OpenRendersSegments(s: string, start: nat, env: Environment)
    requires start + 2 <= |s|
    ensures ExpandOpen(s, start, env) == Render(AfterOpen(s, start), env)
    decreases |s| - start, 0
  {
    var end := FindChar(s, start + 2, '}');
    if end.Some? {
      ExpandRendersSegments(s, end.value + 1, env);
      RenderFirst(Variable(SplitEnvExpr(Between(s, start + 2, end.value))), Segments(s, end.value + 1), env);
    }
  }

  lemma BeforeTwice(a: string, b: string, rest: Result)
    ensures Before(a, Before(b, rest)) == Before(a + b, rest)
  {
    if rest.Ok? {
      Assoc(a, b, rest.text);
    }
  }

  // ---- One turn of the scan, with b already written ----

  lemma NothingOpens(s: string, i: nat, env: Environment, b: string)
    requires i <= |s| && FindPair(s, i, '$', '{').None?
    ensures Before(b, Expand(s, i, env)) == Ok(b + Between(s, i, |s|))
  {
  }

  lemma Opens(s: string, i: nat, start: nat, env: Environment, b: string)
    requires i <= |s| && FindPair(s, i, '$', '{') == Some(start)
    ensures Before(b, Expand(s, i, env)) == Before(b + Between(s, i, start), ExpandOpen(s, start, env))
  {
    BeforeTwice(b, Between(s, i, start), ExpandOpen(s, start, env));
  }

  lemma NeverCloses(s: string, start: nat, env: Environment, b: string)
    requires start + 2 <= |s| && FindChar(s, start + 2, '}').None?
    ensures Before(b, ExpandOpen(s, start, env)) == Err(Unterminated(start))
  {
  }

  lemma Closes(s: string, start: nat, end: nat, expr: string, env: Environment, b: string)
    requires start + 2 <= |s| && FindChar(s, start + 2, '}') == Some(end) && expr == Between(s, start + 2, end)
    ensures var value := Value(SplitEnvExpr(expr), env);
            Before(b, ExpandOpen(s, start, env))
            == if value.Ok? then Before(b + value.text, Expand(s, end + 1, env)) else value
  {
    var value := Value(SplitEnvExpr(expr), env);
    if value.Ok? {
      BeforeTwice(b, value.text, Expand(s, end + 1, env));
    }
  }

  /** The text rewritten from left to right. */
  method Envsubst(s: string, env: Environment) returns (result: Result)
    ensures result == Expand(s, 0, env)
  {
    var b := "";
    var i: nat := 0;
    ghost var whole := Expand(s, 0, env);
    while i < |s|
      invariant i <= |s|
      invariant Before(b, Expand(s, i, env)) == whole
      decreases |s| - i
    {
      var start := FindPair(s, i, '$', '{');
      if start.None? {
        NothingOpens(s, i, env, b);
        b := b + Between(s, i, |s|);
        return Ok(b);
      }
      Opens(s, i, start.value, env, b);
      b := b + Between(s, i, start.value);
      var end := FindChar(s, start.value + 2, '}');
      if end.None? {
        NeverCloses(s, start.value, env, b);
        return Err(Unterminated(start.value));
      }
      var expr := Between(s, start.value + 2, end.value);
      var val := Lookup(expr, env);
      Closes(s, start.value, end.value, expr, env, b);
      if val.Err? {
        return val;
      }
      b := b + val.text;
      i := end.value + 1;
    }
    NothingLeft(s, b, env);
    result := Ok(b);
  }

  lemma NothingLeft(s: string, b: string, env: Environment)
    ensures Before(b, Expand(s, |s|, env)) == Ok(b)
  {
    assert b + "" == b;
  }

  /** The value of one expression, as the body of the loop finds it. */
  method Lookup(expr: string, env: Environment) returns (result: Result)
    ensures result == Value(SplitEnvExpr(expr), env)
  {
    var e := SplitEnvExpr(expr);
    var val := env(e.key);
    if val.None? {
      if e.default.None? {
        return Err(Missing(e.key));
      }
      val := e.default;
    }
    result := Ok(val.value);
  }

  // ---- Parsing loses nothing ----

  lemma PrintFirst(segment: Segment, rest: seq<Segment>)
    ensures Print([segment] + rest) == PrintSegment(segment) + Print(rest)
  {
    assert ([segment] + rest)[1..] == rest;
  }

  lemma PrintOne(segment: Segment)
    ensures Print([segment]) == PrintSegment(segment)
  {
    PrintFirst(segment, []);
    assert [segment] + [] == [segment];
    assert PrintSegment(segment) + "" == PrintSegment(segment);
  }

  lemma {:induction false} SegmentsPrint(s: string, i: nat, segments: seq<Segment>)
    requires i <= |s| && segments == Segments(s, i)
    ensures Print(segments) == Between(s, i, |s|)
    decreases |s| - i, 1
  {
    if i < |s| {
      var start := FindPair(s, i, '$', '{');
      if start.None? {
        PrintOne(Literal(Between(s, i, |s|)));
      } else {
        var rest := AfterOpen(s, start.value);
        AfterOpenPrint(s, start.value, rest);
        PrintFirst(Literal(Between(s, i, start.value)), rest);
        BetweenSplit(s, i, start.value, |s|);
      }
    }
  }

  lemma AroundExpression(s: string, start: nat, end: nat)
    requires PairAt(s, start, '$', '{') && start + 2 <= end < |s| && s[end] == '}'
    ensures Between(s, start, |s|) == "${" + Between(s, start + 2, end) + "}" + Between(s, end + 1, |s|)
  {
    TwoCharacters(s, start, '$', '{');
    BetweenSplit(s, start, start + 2, |s|);
    BetweenSplit(s, start + 2, end, |s|);
    assert Between(s, end, |s|) == "}" + Between(s, end + 1, |s|);
    Assoc4("${", Between(s, start + 2, end), "}", Between(s, end + 1, |s|));
  }

  lemma PrintVariable(expr: string, rest: seq<Segment>)
    ensures Print([Variable(SplitEnvExpr(expr))] + rest) == "${" + expr + "}" + Print(rest)
  {
    SplitPrints(expr);
    PrintFirst(Variable(SplitEnvExpr(expr)), rest);
  }

  lemma PrintOpen(s: string, start: nat)
    requires PairAt(s, start, '$', '{')
    ensures Print([Open(start, Between(s, start + 2, |s|))]) == Between(s, start, |s|)
  {
    PrintOne(Open(start, Between(s, start + 2, |s|)));
    TwoCharacters(s, start, '$', '{');
    BetweenSplit(s, start, start + 2, |s|);
  }

  lemma {:induction false} AfterOpenPrint(s: string, start: nat, segments: seq<Segment>)
    requires PairAt(s, start, '$', '{') && segments == AfterOpen(s, start)
    ensures Print(segments) == Between(s, start, |s|)
    decreases |s| - start, 0
  {
    var end := FindChar(s, start + 2, '}');
    if end.None? {
      AfterOpenUnclosed(s, start);
      PrintOpen(s, start);
    } else {
      var expr, rest := Between(s, start + 2, end.value), Segments(s, end.value + 1);
      SegmentsPrint(s, end.value + 1, rest);
      AfterOpenClosed(s, start, end.value, expr, rest);
      PrintClosed(s, start, end.value, expr, rest);
    }
  }

  lemma AfterOpenUnclosed(s: string, start: nat)
    requires start + 2 <= |s| && FindChar(s, start + 2, '}').None?
    ensures AfterOpen(s, start) == [Open(start, Between(s, start + 2, |s|))]
  {
  }

  lemma AfterOpenClosed(s: string, start: nat, end: nat, expr: string, rest: seq<Segment>)
    requires start + 2 <= |s| && FindChar(s, start + 2, '}') == Some(end)
    requires expr == Between(s, start + 2, end) && rest == Segments(s, end + 1)
    ensures AfterOpen(s, start) == [Variable(SplitEnvExpr(expr))] + rest
  {
  }

  lemma PrintClosed(s: string, start: nat, end: nat, expr: string, rest: seq<Segment>)
    requires PairAt(s, start, '$', '{') && start + 2 <= end < |s| && s[end] == '}'
    requires expr == Between(s, start + 2, end) && Print(rest) == Between(s, end + 1, |s|)
    ensures Print([Variable(SplitEnvExpr(expr))] + rest) == Between(s, start, |s|)
  {
    PrintVariable(expr, rest);
    AroundExpression(s, start, end);
  }

  /** The segments of a text, printed, are the text. */
  lemma ParsePrint(s: string)
    ensures Print(Segments(s, 0)) == s
  {
    SegmentsPrint(s, 0, Segments(s, 0));
    BetweenIsSlice(s, 0, |s|);
  }

  // ---- Substituting two texts in a row ----

  function Moved(at: Option<nat>, n: nat): Option<nat> {
    if at.Some? then Some(at.value + n) else None
  }

  /** The same result, for a text that starts n places further on. */
  function Shifted(result: Result, n: nat): Result {
    if result.Err? && result.error.Unterminated? then Err(Unterminated(result.error.offset + n)) else result
  }

  lemma {:induction false} FindCharShift(a: string, b: string, j: nat, c: char)
    requires j <= |b|
    ensures FindChar(a + b, |a| + j, c) == Moved(FindChar(b, j, c), |a|)
    decreases |b| - j
  {
    if j < |b| && b[j] != c {
      FindCharShift(a, b, j + 1, c);
    }
  }

  lemma {:induction false} FindPairShift(a: string, b: string, j: nat, c: char, d: char)
    requires j <= |b|
    ensures FindPair(a + b, |a| + j, c, d) == Moved(FindPair(b, j, c, d), |a|)
    decreases |b| - j
  {
    if j < |b| {
      assert PairAt(a + b, |a| + j, c, d) <==> PairAt(b, j, c, d);
      FindPairShift(a, b, j + 1, c, d);
    }
  }

  lemma {:induction false} FindCharFirst(a: string, b: string, i: nat, c: char)
    requires i <= |a| && FindChar(a, i, c).Some?
    ensures FindChar(a + b, i, c) == FindChar(a, i, c)
    decreases |a| - i
  {
    if a[i] != c {
      FindCharFirst(a, b, i + 1, c);
    }
  }

  lemma {:induction false} FindPairFirst(a: string, b: string, i: nat, c: char, d: char)
    requires i <= |a| && FindPair(a, i, c, d).Some?
    ensures FindPair(a + b, i, c, d) == FindPair(a, i, c, d)
    decreases |a| - i
  {
    if !PairAt(a, i, c, d) {
      FindPairFirst(a, b, i + 1, c, d);
      assert !PairAt(a + b, i, c, d);
    }
  }

  /** No variable opens across the seam. */
  predicate Joins(a: string, b: string) {
    a == "" || b == "" || a[|a| - 1] != '$' || b[0] != '{'
  }

  lemma {:induction false} FindPairPast(a: string, b: string, i: nat)
    requires i <= |a| && Joins(a, b) && FindPair(a, i, '$', '{').None?
    ensures FindPair(a + b, i, '$', '{') == Moved(FindPair(b, 0, '$', '{'), |a|)
    decreases |a| - i
  {
    if i == |a| {
      FindPairShift(a, b, 0, '$', '{');
    } else {
      FindPairPast(a, b, i + 1);
      assert !PairAt(a + b, i, '$', '{');
    }
  }

  lemma {:induction false} ExpandShift(a: string, b: string, j: nat, env: Environment)
    requires j <= |b|
    ensures Expand(a + b, |a| + j, env) == Shifted(Expand(b, j, env), |a|)
    decreases |b| - j, 1
  {
    FindPairShift(a, b, j, '$', '{');
    var start := FindPair(b, j, '$', '{');
    if start.None? {
      BetweenShift(a, b, j, |b|);
      ExpandLast(b, j, env);
      ExpandLast(a + b, |a| + j, env);
    } else {
      BetweenShift(a, b, j, start.value);
      ExpandOpenShift(a, b, start.value, env);
      ExpandFirst(b, j, start.value, env);
      ExpandFirst(a + b, |a| + j, |a| + start.value, env);
      ShiftedBefore(Between(b, j, start.value), ExpandOpen(b, start.value, env), |a|);
    }
  }

  lemma ExpandLast(s: string, i: nat, env: Environment)
    requires i <= |s| && FindPair(s, i, '$', '{').None?
    ensures Expand(s, i, env) == Ok(Between(s, i, |s|))
  {
  }

  lemma ExpandFirst(s: string, i: nat, start: nat, env: Environment)
    requires i <= |s| && FindPair(s, i, '$', '{') == Some(start)
    ensures Expand(s, i, env) == Before(Between(s, i, start), ExpandOpen(s, start, env))
  {
  }

  lemma ShiftedBefore(text: string, rest: Result, n: nat)
    ensures Shifted(Before(text, rest), n) == Before(text, Shifted(rest, n))
  {
  }

  lemma {:induction false} ExpandOpenShift(a: string, b: string, start: nat, env: Environment)
    requires start + 2 <= |b|
    ensures ExpandOpen(a + b, |a| + start, env) == Shifted(ExpandOpen(b, start, env), |a|)
    decreases |b| - start, 0
  {
    FindCharShift(a, b, start + 2, '}');
    var end := FindChar(b, start + 2, '}');
    if end.None? {
      return;
    }
    ExpandShift(a, b, end.value + 1, env);
    ExpandClosedShift(a, b, start, end.value, env);
  }

  lemma ExpandClosedShift(a: string, b: string, start: nat, end: nat, env: Environment)
    requires start + 2 <= |b| && FindChar(b, start + 2, '}') == Some(end)
    requires FindChar(a + b, |a| + start + 2, '}') == Some(|a| + end)
    requires Expand(a + b, |a| + end + 1, env) == Shifted(Expand(b, end + 1, env), |a|)
    ensures ExpandOpen(a + b, |a| + start, env) == Shifted(ExpandOpen(b, start, env), |a|)
  {
    BetweenShift(a, b, start + 2, end);
    SameExpression(b, start, end, a + b, |a| + start, |a| + end, |a|, env);
  }

  /** The same expression in two texts, followed by results that differ by a shift. */
  lemma SameExpression(s: string, start: nat, end: nat, t: string, from: nat, to: nat, n: nat, env: Environment)
    requires start + 2 <= |s| && FindChar(s, start + 2, '}') == Some(end)
    requires from + 2 <= |t| && FindChar(t, from + 2, '}') == Some(to)
    requires Between(s, start + 2, end) == Between(t, from + 2, to)
    requires Expand(t, to + 1, env) == Shifted(Expand(s, end + 1, env), n)
    ensures ExpandOpen(t, from, env) == Shifted(ExpandOpen(s, start, env), n)
  {
    var expr := Between(s, start + 2, end);
    ExpandOpenAt(s, start, end, expr, env);
    ExpandOpenAt(t, from, to, expr, env);
    ShiftedThen(Value(SplitEnvExpr(expr), env), Expand(s, end + 1, env), n);
  }

  lemma ExpandOpenAt(s: string, start: nat, end: nat, expr: string, env: Environment)
    requires start + 2 <= |s| && FindChar(s, start + 2, '}') == Some(end) && expr == Between(s, start + 2, end)
    ensures ExpandOpen(s, start, env) == Then(Value(SplitEnvExpr(expr), env), Expand(s, end + 1, env))
  {
  }

  lemma ShiftedThen(first: Result, second: Result, n: nat)
    requires first.Err? ==> first.error.Missing?
    ensures Shifted(Then(first, second), n) == Then(first, Shifted(second, n))
  {
  }

  lemma ThenThen(first: Result, second: Result, third: Result)
    ensures Then(Then(first, second), third) == Then(first, Then(second, third))
  {
    if first.Ok? && second.Ok? {
      BeforeTwice(first.text, second.text, third);
    }
  }

  predicate Terminated(result: Result) {
    result.Ok? || result.error.Missing?
  }

  lemma ThenBefore(text: string, first: Result, second: Result)
    ensures Then(Before(text, first), second) == Before(text, Then(first, second))
  {
    if first.Ok? {
      BeforeTwice(text, first.text, second);
    }
  }

  /**
   Substituting a text in two parts is the same as substituting it whole, unless a variable is open
   where the first part ends.
  */
  lemma {:induction false} ExpandConcat(a: string, b: string, i: nat, env: Environment)
    requires i <= |a| && Joins(a, b) && Terminated(Expand(a, i, env))
    ensures Expand(a + b, i, env) == Then(Expand(a, i, env), Shifted(Expand(b, 0, env), |a|))
    decreases |a| - i, 1
  {
    var start := FindPair(a, i, '$', '{');
    if start.None? {
      LastLiteral(a, b, i, env);
    } else {
      FindPairFirst(a, b, i, '$', '{');
      BetweenFirst(a, b, i, start.value);
      ExpandOpenConcat(a, b, start.value, env);
      ThenBefore(Between(a, i, start.value), ExpandOpen(a, start.value, env), Shifted(Expand(b, 0, env), |a|));
    }
  }

  lemma LastLiteral(a: string, b: string, i: nat, env: Environment)
    requires i <= |a| && Joins(a, b) && FindPair(a, i, '$', '{').None?
    ensures Expand(a + b, i, env) == Before(Between(a, i, |a|), Shifted(Expand(b, 0, env), |a|))
  {
    SeamSkipped(a, b, i);
    ExpandSecond(a, b, env);
    ExpandEarlier(a, b, i, env);
  }

  lemma SeamSkipped(a: string, b: string, i: nat)
    requires i <= |a| && Joins(a, b) && FindPair(a, i, '$', '{').None?
    ensures FindPair(a + b, i, '$', '{') == FindPair(a + b, |a|, '$', '{')
  {
    FindPairPast(a, b, i);
    FindPairShift(a, b, 0, '$', '{');
  }

  lemma ExpandSecond(a: string, b: string, env: Environment)
    ensures Expand(a + b, |a|, env) == Shifted(Expand(b, 0, env), |a|)
  {
    ExpandShift(a, b, 0, env);
  }

  /** What comes before the first opening is copied. */
  lemma ExpandEarlier(a: string, b: string, i: nat, env: Environment)
    requires i <= |a| && FindPair(a + b, i, '$', '{') == FindPair(a + b, |a|, '$', '{')
    ensures Expand(a + b, i, env) == Before(Between(a, i, |a|), Expand(a + b, |a|, env))
  {
    BetweenFirst(a, b, i, |a|);
    var start := FindPair(a + b, |a|, '$', '{');
    if start.None? {
      BetweenSplit(a + b, i, |a|, |a + b|);
    } else {
      BetweenSplit(a + b, i, |a|, start.value);
      BeforeTwice(Between(a, i, |a|), Between(a + b, |a|, start.value), ExpandOpen(a + b, start.value, env));
    }
  }

  lemma {:induction false} ExpandOpenConcat(a: string, b: string, start: nat, env: Environment)
    requires start + 2 <= |a| && Joins(a, b) && Terminated(ExpandOpen(a, start, env))
    ensures ExpandOpen(a + b, start, env)
         == Then(ExpandOpen(a, start, env), Shifted(Expand(b, 0, env), |a|))
    decreases |a| - start, 0
  {
    var end := FindChar(a, start + 2, '}').value;
    FindCharFirst(a, b, start + 2, '}');
    var expr := Between(a, start + 2, end);
    BetweenFirst(a, b, start + 2, end);
    ExpandOpenAt(a, start, end, expr, env);
    ExpandOpenAt(a + b, start, end, expr, env);
    if Value(SplitEnvExpr(expr), env).Ok? {
      ExpandConcat(a, b, end + 1, env);
    }
    ThenRest(Value(SplitEnvExpr(expr), env), Expand(a, end + 1, env), Expand(a + b, end + 1, env),
             Shifted(Expand(b, 0, env), |a|));
  }

  lemma ThenRest(first: Result, second: Result, both: Result, third: Result)
    requires first.Ok? ==> both == Then(second, third)
    ensures Then(first, both) == Then(Then(first, second), third)
  {
    ThenThen(first, second, third);
  }

  /** When the first part succeeds and nothing opens across the seam, the results are joined. */
  lemma Concatenation(a: string, b: string, env: Environment)
    requires Joins(a, b) && Expand(a, 0, env).Ok?
    ensures Expand(a + b, 0, env) == Before(Expand(a, 0, env).text, Shifted(Expand(b, 0, env), |a|))
  {
    ExpandConcat(a, b, 0, env);
  }

  // ---- When two texts can be substituted apart ----

  /** Every opening in the text is closed. */
  ghost predicate Closed(s: string) {
    AllClosed(Segments(s, 0))
  }

  ghost predicate AllClosed(segments: seq<Segment>) {
    forall segment | segment in segments :: !segment.Open?
  }

  /** Every variable is set, to nothing. */
  const BLANK: Environment := _ => Some("")

  lemma {:induction false} RenderClosed(segments: seq<Segment>, env: Environment)
    ensures Render(segments, env).Ok? ==> AllClosed(segments)
    ensures AllClosed(segments) ==> Render(segments, BLANK).Ok?
  {
    if segments != [] {
      RenderClosed(segments[1..], env);
    }
  }

  /** A text that some environment can be substituted in is closed, and then the blank one can. */
  lemma ExpandClosed(s: string, env: Environment)
    ensures Expand(s, 0, env).Ok? ==> Closed(s)
    ensures Closed(s) ==> Expand(s, 0, BLANK).Ok?
  {
    ExpandRendersSegments(s, 0, env);
    ExpandRendersSegments(s, 0, BLANK);
    RenderClosed(Segments(s, 0), env);
  }

  lemma BetweenLength(s: string, i: nat, j: nat)
    requires i <= j <= |s|
    ensures |Between(s, i, j)| == j - i
  {
    BetweenIsSlice(s, i, j);
  }

  /** The length of what the text from i on becomes when every variable is blank, or -1 if it does not end well. */
  function BlankLength(s: string, i: nat): int
    requires i <= |s|
  {
    var result := Expand(s, i, BLANK);
    if result.Ok? then |result.text| else -1
  }

  lemma BlankLiteral(s: string, i: nat)
    requires i <= |s| && FindPair(s, i, '$', '{').None?
    ensures BlankLength(s, i) == |s| - i
  {
    BetweenLength(s, i, |s|);
  }

  lemma BlankUnclosed(s: string, i: nat, start: nat)
    requires i <= |s| && FindPair(s, i, '$', '{') == Some(start) && FindChar(s, start + 2, '}').None?
    ensures BlankLength(s, i) == -1
  {
    assert ExpandOpen(s, start, BLANK).Err?;
    assert Expand(s, i, BLANK).Err?;
  }

  /** A variable takes no room. */
  lemma BlankVariable(s: string, i: nat, start: nat, end: nat)
    requires i <= |s| && FindPair(s, i, '$', '{') == Some(start) && FindChar(s, start + 2, '}') == Some(end)
    ensures BlankLength(s, i) == if BlankLength(s, end + 1) < 0 then -1 else start - i + BlankLength(s, end + 1)
  {
    var expr := Between(s, start + 2, end);
    ExpandOpenAt(s, start, end, expr, BLANK);
    BetweenLength(s, i, start);
    BlankValue(expr);
  }

  lemma BlankValue(expr: string)
    ensures Value(SplitEnvExpr(expr), BLANK) == Ok("")
  {
  }

  lemma {:induction false} FindPairSkips(s: string, i: nat, j: nat)
    requires i <= j <= |s| && (FindPair(s, i, '$', '{').None? || FindPair(s, i, '$', '{').value >= j)
    ensures FindPair(s, j, '$', '{') == FindPair(s, i, '$', '{')
    decreases j - i
  {
    if i < j {
      FindPairSkips(s, i + 1, j);
    }
  }

  lemma {:induction false} FindCharSkips(s: string, i: nat, j: nat, c: char)
    requires i <= j <= |s| && FindChar(s, i, c).Some? && FindChar(s, i, c).value >= j
    ensures FindChar(s, j, c) == FindChar(s, i, c)
    decreases j - i
  {
    if i < j {
      FindCharSkips(s, i + 1, j, c);
    }
  }

  /** Starting after the first closing brace instead of before it leaves no more text. */
  lemma AfterFirstBrace(b: string, end: nat)
    requires b != "" && b[0] == '{' && FindChar(b, 1, '}') == Some(end) && BlankLength(b, 0) >= 0
    ensures BlankLength(b, end + 1) <= BlankLength(b, 0)
  {
    var start := FindPair(b, 0, '$', '{');
    if start.None? {
      FindPairSkips(b, 0, end + 1);
      BlankLiteral(b, 0);
      BlankLiteral(b, end + 1);
    } else if start.value > end {
      SameAfter(b, start.value, end);
    } else {
      FindCharSkips(b, 1, start.value + 2, '}');
      BlankVariable(b, 0, start.value, end);
    }
  }

  lemma SameAfter(b: string, start: nat, end: nat)
    requires FindPair(b, 0, '$', '{') == Some(start) && end < start
    ensures BlankLength(b, end + 1) <= BlankLength(b, 0)
  {
    FindPairSkips(b, 0, end + 1);
    var close := FindChar(b, start + 2, '}');
    if close.None? {
      BlankUnclosed(b, 0, start);
      BlankUnclosed(b, end + 1, start);
    } else {
      BlankVariable(b, 0, start, close.value);
      BlankVariable(b, end + 1, start, close.value);
    }
  }

  lemma {:induction false} FindPairAtSeam(a: string, b: string, i: nat)
    requires i < |a| && !Joins(a, b) && FindPair(a, i, '$', '{').None?
    ensures FindPair(a + b, i, '$', '{') == Some(|a| - 1)
    decreases |a| - i
  {
    if i < |a| - 1 {
      FindPairAtSeam(a, b, i + 1);
      assert !PairAt(a + b, i, '$', '{');
    } else {
      assert PairAt(a + b, i, '$', '{');
    }
  }

  lemma ShiftedBlank(a: string, b: string, j: nat)
    requires j <= |b|
    ensures BlankLength(a + b, |a| + j) == BlankLength(b, j)
  {
    ExpandShift(a, b, j, BLANK);
  }

  /** The variable that opens across the seam swallows at least the dollar sign. */
  lemma SeamOpens(a: string, b: string, i: nat)
    requires i < |a| && !Joins(a, b) && FindPair(a, i, '$', '{').None? && BlankLength(b, 0) >= 0
    ensures BlankLength(a + b, i) < |a| - i + BlankLength(b, 0)
  {
    FindPairAtSeam(a, b, i);
    FindCharShift(a, b, 1, '}');
    var end := FindChar(b, 1, '}');
    if end.None? {
      BlankUnclosed(a + b, i, |a| - 1);
    } else {
      BlankVariable(a + b, i, |a| - 1, |a| + end.value);
      ShiftedBlank(a, b, end.value + 1);
      AfterFirstBrace(b, end.value);
    }
  }

  lemma {:induction false} SeamShorter(a: string, b: string, i: nat)
    requires i < |a| && !Joins(a, b) && BlankLength(a, i) >= 0 && BlankLength(b, 0) >= 0
    ensures BlankLength(a + b, i) < BlankLength(a, i) + BlankLength(b, 0)
    decreases |a| - i
  {
    var start := FindPair(a, i, '$', '{');
    if start.None? {
      BlankLiteral(a, i);
      SeamOpens(a, b, i);
    } else {
      SeamLater(a, b, i, start.value);
    }
  }

  lemma {:induction false} SeamLater(a: string, b: string, i: nat, start: nat)
    requires i < |a| && !Joins(a, b) && BlankLength(a, i) >= 0 && BlankLength(b, 0) >= 0
    requires FindPair(a, i, '$', '{') == Some(start)
    ensures BlankLength(a + b, i) < BlankLength(a, i) + BlankLength(b, 0)
    decreases |a| - i, 0
  {
    var end := FindChar(a, start + 2, '}');
    FindPairFirst(a, b, i, '$', '{');
    if end.None? {
      BlankUnclosed(a, i, start);
    } else {
      FindCharFirst(a, b, start + 2, '}');
      BlankVariable(a, i, start, end.value);
      BlankVariable(a + b, i, start, end.value);
      SeamShorter(a, b, end.value + 1);
    }
  }

  lemma BlankTellsApart(a: string, b: string)
    requires Closed(a) && Closed(b) && !Joins(a, b)
    ensures Expand(a, 0, BLANK).Ok? && Expand(b, 0, BLANK).Ok?
    ensures Expand(a + b, 0, BLANK) != Ok(Expand(a, 0, BLANK).text + Expand(b, 0, BLANK).text)
  {
    ExpandClosed(a, BLANK);
    ExpandClosed(b, BLANK);
    SeamShorter(a, b, 0);
  }

  /**
   In every environment in which both texts can be substituted, so can the two in a row, with the results in
   a row.
  */
  ghost predicate Concatenates(a: string, b: string) {
    forall env: Environment | Expand(a, 0, env).Ok? && Expand(b, 0, env).Ok? ::
      Expand(a + b, 0, env) == Ok(Expand(a, 0, env).text + Expand(b, 0, env).text)
  }

  /**
   Two texts can be substituted apart if and only if one of them can never be substituted at all, or no
   dollar sign meets an opening brace between them.
  */
  lemma ConcatenationIff(a: string, b: string)
    ensures Concatenates(a, b) <==> !Closed(a) || !Closed(b) || Joins(a, b)
  {
    if Closed(a) && Closed(b) {
      if Joins(a, b) {
        forall env: Environment | Expand(a, 0, env).Ok? && Expand(b, 0, env).Ok?
          ensures Expand(a + b, 0, env) == Ok(Expand(a, 0, env).text + Expand(b, 0, env).text)
        {
          Concatenation(a, b, env);
        }
      } else {
        BlankTellsApart(a, b);
      }
    } else {
      forall env: Environment
        ensures !Expand(a, 0, env).Ok? || !Expand(b, 0, env).Ok?
      {
        ExpandClosed(a, env);
        ExpandClosed(b, env);
      }
    }
  }

  /**
   The errors too are those of the two texts, wherever the first succeeds, if and only if nothing opens
   across the seam.
  */
  lemma ErrorsConcatenateIff(a: string, b: string)
    requires Closed(a) && Closed(b)
    ensures (forall env: Environment | Expand(a, 0, env).Ok? ::
               Expand(a + b, 0, env) == Before(Expand(a, 0, env).text, Shifted(Expand(b, 0, env), |a|)))
        <==> Joins(a, b)
  {
    if Joins(a, b) {
      forall env: Environment | Expand(a, 0, env).Ok?
        ensures Expand(a + b, 0, env) == Before(Expand(a, 0, env).text, Shifted(Expand(b, 0, env), |a|))
      {
        Concatenation(a, b, env);
      }
    } else {
      BlankTellsApart(a, b);
    }
  }

  /** The seam matters: a dollar sign and a pair of braces are plain text apart and a variable together. */
  lemma SeamMatters(env: Environment)
    requires env("") == None
    ensures Expand("$", 0, env) == Ok("$") && Expand("{}", 0, env) == Ok("{}")
    ensures Expand("${}", 0, env) == Err(Missing(""))
  {
    assert PairAt("${}", 0, '$', '{');
    assert FindChar("${}", 2, '}') == Some(2);
    assert SplitEnvExpr("") == Expression("", None);
  }
}
