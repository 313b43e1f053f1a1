/** fermi_engine.py: FermiEngine keeps a table of variables and runs a model line by line,
    binding each assignment's name to the value of its expression and turning every failure
    into an error result. The functions Step and Run say what one line and a whole model do
    to a table; the class performs them in place. */
module Engine {
  import opened Wrappers
  import opened Text
  import opened Parser
  import opened Evaluator

  /** The errors execute_line reports: a ParseError from parse_line or tokenize, the empty
      expression, a NameError for an undefined variable, and the evaluation error. */
  datatype EngineError =
    | Syntax(cause: ParseError)
    | EmptyExpression
    | UndefinedVariable(name: string)
    | Evaluation(failure: EvalFailure)

  /** The "message" of an error result. */
  function Message(e: EngineError): string {
    match e
    case Syntax(p) => ErrorMessage(p)
    case EmptyExpression => "Empty expression"
    case UndefinedVariable(n) => "Undefined variable: " + n
    case Evaluation(Malformed) => "Evaluation error: invalid syntax"
    case Evaluation(DivisionByZero) => "Evaluation error: float division by zero"
  }

  /** The records execute_line returns: {"type": "empty"}, {"type": "comment", "text": ...},
      {"type": "assignment", "var": ..., "value": ...} with the optional "comment", and
      {"type": "error", "message": ...}, which keeps the error itself. */
  datatype LineResult =
    | Empty
    | Comment(text: string)
    | Assignment(name: string, value: real, comment: Option<string>)
    | Failed(error: EngineError)

  // ---------------------------------------------------------------------------
  // Variables
  // ---------------------------------------------------------------------------

  /** Every variable among ts has a value in the table. */
  predicate Defined(ts: seq<Token>, vars: map<string, real>) {
    forall k :: 0 <= k < |ts| && ts[k].Variable? ==> ts[k].name in vars
  }

  /** A token with a variable replaced by its value. */
  function Resolved(t: Token, vars: map<string, real>): Token {
    if t.Variable? && t.name in vars then Number(vars[t.name]) else t
  }

  /** The loop of _evaluate_tokens, which writes each number and each variable's value in
      place of the token: it succeeds exactly when every variable is defined, and then each
      token is resolved; otherwise it stops at the first undefined variable and names it. */
  function Substitute(ts: seq<Token>, vars: map<string, real>): (r: Result<seq<Token>, string>)
    ensures r.Ok? <==> Defined(ts, vars)
    ensures r.Ok? ==> |r.value| == |ts| && forall k :: 0 <= k < |ts| ==> r.value[k] == Resolved(ts[k], vars)
    ensures r.Err? ==>
      exists k :: 0 <= k < |ts| && ts[k] == Variable(r.error) && r.error !in vars && Defined(ts[..k], vars)
  {
    if ts == [] then Ok([])
    else if ts[0].Variable? && ts[0].name !in vars then
      assert Defined(ts[..0], vars);
      Err(ts[0].name)
    else
      match Substitute(ts[1..], vars)
      case Err(n) =>
        var k :| 0 <= k < |ts[1..]| && ts[1..][k] == Variable(n) && n !in vars && Defined(ts[1..][..k], vars);
        assert ts[1 + k] == Variable(n);
        assert ts[..1 + k] == [ts[0]] + ts[1..][..k];
        Err(n)
      case Ok(rest) =>
        assert forall k :: 0 < k < |ts| ==> ts[k] == ts[1..][k - 1];
        Ok([Resolved(ts[0], vars)] + rest)
  }

  /** _evaluate_tokens: the value of the tokens once every variable has its value. */
  function ValueOf(vars: map<string, real>, ts: seq<Token>): Result<real, EngineError> {
    match Substitute(ts, vars)
    case Err(n) => Err(UndefinedVariable(n))
    case Ok(resolved) =>
      match Evaluate(resolved)
      case Err(f) => Err(Evaluation(f))
      case Ok(v) => Ok(v)
  }

  /** evaluate_expression: tokenize, refuse an empty token list, then evaluate. */
  function EvaluateIn(vars: map<string, real>, expr: string): Result<real, EngineError> {
    match TokensOf(expr)
    case Err(e) => Err(Syntax(e))
    case Ok(ts) => if ts == [] then Err(EmptyExpression) else ValueOf(vars, ts)
  }

  /** execute_line: the table after the line, and its result. The table changes only when an
      assignment's expression has a value. */
  function Step(vars: map<string, real>, line: string): (map<string, real>, LineResult) {
    Perform(vars, ParseLine(line))
  }

  /** What execute_line does with the outcome of parse_line. */
  function Perform(vars: map<string, real>, parsed: Result<Line, ParseError>): (map<string, real>, LineResult) {
    match parsed
    case Err(e) => (vars, Failed(Syntax(e)))
    case Ok(EmptyLine) => (vars, Empty)
    case Ok(CommentLine(t)) => (vars, Comment(t))
    case Ok(AssignmentLine(n, e, c)) => Bind(vars, n, EvaluateIn(vars, e), c)
  }

  /** An assignment binds its name only when its expression has a value. */
  function Bind(vars: map<string, real>, n: string, value: Result<real, EngineError>, c: Option<string>)
    : (map<string, real>, LineResult)
  {
    match value
    case Err(x) => (vars, Failed(x))
    case Ok(v) => (vars[n := v], Assignment(n, v, c))
  }

  /** Running lines one after the other, each on the table the lines before it left, with
      one result per line in order. */
  function RunLines(step: (map<string, real>, string) -> (map<string, real>, LineResult),
                    vars: map<string, real>, lines: seq<string>): (r: (map<string, real>, seq<LineResult>))
    ensures |r.1| == |lines|
    decreases |lines|
  {
    if lines == [] then (vars, [])
    else
      var first := step(vars, lines[0]);
      var rest := RunLines(step, first.0, lines[1..]);
      (rest.0, [first.1] + rest.1)
  }

  /** execute_model over its lines: every line executed in order on one engine. */
  function Run(vars: map<string, real>, lines: seq<string>): (map<string, real>, seq<LineResult>) {
    RunLines(Step, vars, lines)
  }

  // ---------------------------------------------------------------------------
  // The engine
  // ---------------------------------------------------------------------------

  class FermiEngine {
    var variables: map<string, real>

    /** A new engine has no variables. */
    constructor()
      ensures variables == map[]
    {
      variables := map[];
    }

    /** evaluate_expression on the current table. */
    method EvaluateExpression(expr: string) returns (r: Result<real, EngineError>)
      ensures r == EvaluateIn(variables, expr)
    {
      var tokens := Tokenize(expr);
      if tokens.Err? {
        return Err(Syntax(tokens.error));
      }
      if tokens.value == [] {
        return Err(EmptyExpression);
      }
      r := EvaluateTokens(tokens.value);
    }

    /** _evaluate_tokens: a pass over the tokens that replaces each variable by its value and
        stops at the first undefined one, then the evaluation of what it wrote. */
    method EvaluateTokens(tokens: seq<Token>) returns (r: Result<real, EngineError>)
      ensures r == ValueOf(variables, tokens)
    {
      var parts: seq<Token> := [];
      for i := 0 to |tokens|
        invariant Defined(tokens[..i], variables)
        invariant |parts| == i
        invariant forall k :: 0 <= k < i ==> parts[k] == Resolved(tokens[k], variables)
      {
        var t := tokens[i];
        if t.Variable? {
          if t.name !in variables {
            FirstUndefined(tokens, variables, i);
            return Err(UndefinedVariable(t.name));
          }
          parts := parts + [Number(variables[t.name])];
        } else {
          parts := parts + [t];
        }
        assert tokens[..i + 1] == tokens[..i] + [t];
      }
      assert tokens[..|tokens|] == tokens;
      assert parts == Substitute(tokens, variables).value;
      var value := Evaluate(parts);
      if value.Err? {
        return Err(Evaluation(value.error));
      }
      return Ok(value.value);
    }

    /** execute_line: the table and the result are those of Step. */
    method ExecuteLine(line: string) returns (result: LineResult)
      modifies this
      ensures (variables, result) == Step(old(variables), line)
    {
      var parsed := ParseLine(line);
      if parsed.Err? {
        return Failed(Syntax(parsed.error));
      }
      match parsed.value
      case EmptyLine =>
        return Empty;
      case CommentLine(t) =>
        return Comment(t);
      case AssignmentLine(n, e, c) =>
        var value := EvaluateExpression(e);
        if value.Err? {
          return Failed(value.error);
        }
        variables := variables[n := value.value];
        return Assignment(n, value.value, c);
    }

    /** execute_model: one result per line of the text, the table threaded through. */
    method ExecuteModel(text: string) returns (results: seq<LineResult>)
      modifies this
      ensures (variables, results) == Run(old(variables), SplitOn(text, '\n'))
      ensures |results| == Occurrences(text, '\n') + 1
    {
      var lines := SplitOn(text, '\n');
      results := [];
      for i := 0 to |lines|
        invariant (variables, results) == Run(old(variables), lines[..i])
      {
        assert lines[..i + 1] == lines[..i] + [lines[i]];
        RunAppend(old(variables), lines[..i], lines[i]);
        var result := ExecuteLine(lines[i]);
        results := results + [result];
      }
      assert lines[..|lines|] == lines;
    }

    /** clear: the table is emptied. */
    method Clear()
      modifies this
      ensures variables == map[]
    {
      variables := map[];
    }
  }

  // ---------------------------------------------------------------------------
  // Properties
  // ---------------------------------------------------------------------------

  /** Where the loop of _evaluate_tokens stops at an undefined variable, Substitute fails with
      that variable's name. */
  lemma {:induction false} FirstUndefined(ts: seq<Token>, vars: map<string, real>, i: nat)
    requires i < |ts| && ts[i].Variable? && ts[i].name !in vars && Defined(ts[..i], vars)
    ensures Substitute(ts, vars) == Err(ts[i].name)
  {
    if i > 0 {
      assert ts[..i][0] == ts[0];
      assert ts[1..][..i - 1] == ts[..i][1..];
      FirstUndefined(ts[1..], vars, i - 1);
    }
  }

  /** A run splits at any line: the later lines run on the table the earlier ones left, and
      the results are the two runs' results in order. */
  lemma {:induction false} RunLinesConcat(step: (map<string, real>, string) -> (map<string, real>, LineResult),
                                          vars: map<string, real>, a: seq<string>, b: seq<string>)
    ensures var (middle, first) := RunLines(step, vars, a);
      var (last, second) := RunLines(step, middle, b);
      RunLines(step, vars, a + b) == (last, first + second)
    decreases |a|
  {
    if a == [] {
      assert a + b == b;
      assert RunLines(step, vars, a).1 + RunLines(step, vars, b).1 == RunLines(step, vars, b).1;
    } else {
      var first := step(vars, a[0]);
      assert (a + b)[0] == a[0];
      assert (a + b)[1..] == a[1..] + b;
      RunLinesConcat(step, first.0, a[1..], b);
      var tail := RunLines(step, first.0, a[1..]);
      var after := RunLines(step, tail.0, b);
      assert RunLines(step, vars, a) == (tail.0, [first.1] + tail.1);
      assert RunLines(step, vars, a + b) == (after.0, [first.1] + (tail.1 + after.1));
      assert [first.1] + (tail.1 + after.1) == [first.1] + tail.1 + after.1;
    }
  }

  lemma RunLinesOne(step: (map<string, real>, string) -> (map<string, real>, LineResult),
                    vars: map<string, real>, line: string)
    ensures RunLines(step, vars, [line]) == (step(vars, line).0, [step(vars, line).1])
  {
    var first := step(vars, line);
    assert [line][0] == line && [line][1..] == [];
    assert RunLines(step, first.0, []) == (first.0, []);
    assert [first.1] + [] == [first.1];
  }

  /** A model's run splits at any line in the same way. */
  lemma RunConcat(vars: map<string, real>, a: seq<string>, b: seq<string>)
    ensures var (middle, first) := Run(vars, a);
      var (last, second) := Run(middle, b);
      Run(vars, a + b) == (last, first + second)
  {
    RunLinesConcat(Step, vars, a, b);
  }

  /** One more line runs on the table the earlier lines left. */
  lemma RunAppend(vars: map<string, real>, lines: seq<string>, line: string)
    ensures var (before, results) := Run(vars, lines);
      var (after, result) := Step(before, line);
      Run(vars, lines + [line]) == (after, results + [result])
  {
    RunLinesConcat(Step, vars, lines, [line]);
    RunLinesOne(Step, Run(vars, lines).0, line);
  }

  /** In a model's run, the result of line k is what that line gives on the table the lines
      before it built, whatever their results were: an error on one line does not stop the
      next. */
  lemma LineOfRun(vars: map<string, real>, lines: seq<string>, k: nat)
    requires k < |lines|
    ensures Run(vars, lines).1[k] == Step(Run(vars, lines[..k]).0, lines[k]).1
  {
    assert lines == lines[..k] + lines[k..];
    RunLinesConcat(Step, vars, lines[..k], lines[k..]);
  }

  /** A line changes the table only by binding an assignment's name to its value: an error,
      a comment and an empty line leave it as it was, and no other name is touched. */
  lemma StepTable(vars: map<string, real>, line: string)
    ensures var (after, result) := Step(vars, line);
      (result.Assignment? ==> after == vars[result.name := result.value]) &&
      (!result.Assignment? ==> after == vars)
  {
    PerformTable(vars, ParseLine(line));
  }

  lemma PerformTable(vars: map<string, real>, parsed: Result<Line, ParseError>)
    ensures var (after, result) := Perform(vars, parsed);
      (result.Assignment? ==> after == vars[result.name := result.value]) &&
      (!result.Assignment? ==> after == vars)
  {
    if parsed.Ok? && parsed.value.AssignmentLine? {
      var value := EvaluateIn(vars, parsed.value.expr);
      assert Perform(vars, parsed) == Bind(vars, parsed.value.name, value, parsed.value.comment);
    }
  }

  /** A successful assignment is the parsed line's name, the value of its expression on the
      table as it was, and its comment. */
  lemma AssignmentResult(vars: map<string, real>, line: string)
    requires Step(vars, line).1.Assignment?
    ensures var (after, result) := Step(vars, line);
      var parsed := ParseLine(line);
      parsed.Ok? && parsed.value.AssignmentLine? &&
      parsed.value.name == result.name && parsed.value.comment == result.comment &&
      EvaluateIn(vars, parsed.value.expr) == Ok(result.value) &&
      result.name in after && after[result.name] == result.value
  {
    PerformAssignment(vars, ParseLine(line));
  }

  lemma PerformAssignment(vars: map<string, real>, parsed: Result<Line, ParseError>)
    requires Perform(vars, parsed).1.Assignment?
    ensures var (after, result) := Perform(vars, parsed);
      parsed.Ok? && parsed.value.AssignmentLine? &&
      parsed.value.name == result.name && parsed.value.comment == result.comment &&
      EvaluateIn(vars, parsed.value.expr) == Ok(result.value) &&
      result.name in after && after[result.name] == result.value
  {
    assert parsed.Ok? && parsed.value.AssignmentLine?;
    var value := EvaluateIn(vars, parsed.value.expr);
    assert Perform(vars, parsed) == Bind(vars, parsed.value.name, value, parsed.value.comment);
  }

  /** An undefined variable is reported by name, the leftmost one first, before any syntax
      error of the arithmetic. */
  lemma UndefinedVariableReported(vars: map<string, real>, expr: string, k: nat)
    requires TokensOf(expr).Ok? && k < |TokensOf(expr).value|
    requires var ts := TokensOf(expr).value;
      ts[k].Variable? && ts[k].name !in vars && Defined(ts[..k], vars)
    ensures EvaluateIn(vars, expr) == Err(UndefinedVariable(TokensOf(expr).value[k].name))
  {
    FirstUndefined(TokensOf(expr).value, vars, k);
  }

  /** Once every variable is defined, an expression's value is the evaluator's value of its
      tokens with each variable replaced by its value. */
  lemma DefinedEvaluates(vars: map<string, real>, expr: string)
    requires TokensOf(expr).Ok? && TokensOf(expr).value != [] && Defined(TokensOf(expr).value, vars)
    ensures var ts := TokensOf(expr).value;
      var resolved := seq(|ts|, k requires 0 <= k < |ts| => Resolved(ts[k], vars));
      match Evaluate(resolved)
      case Ok(v) => EvaluateIn(vars, expr) == Ok(v)
      case Err(f) => EvaluateIn(vars, expr) == Err(Evaluation(f))
  {
    var ts := TokensOf(expr).value;
    var resolved := seq(|ts|, k requires 0 <= k < |ts| => Resolved(ts[k], vars));
    assert Substitute(ts, vars).value == resolved;
  }

  /** An assignment whose expression is nothing but a comment, such as "x = # c", is the
      empty-expression error, and the table is kept. */
  lemma CommentOnlyExpression(vars: map<string, real>, a: string, b: string)
    requires '=' !in a && IsIdentifier(Strip(a)) && '=' !in b && !AllSpace(b) && Strip(b)[0] == '#'
    ensures Step(vars, a + "=" + b) == (vars, Failed(EmptyExpression))
  {
    var c := CommentOnlyParsed(a, b);
    EmptyExpressionFails(vars);
    assert Step(vars, a + "=" + b) == Bind(vars, Strip(a), EvaluateIn(vars, []), c);
  }

  lemma EmptyExpressionFails(vars: map<string, real>)
    ensures EvaluateIn(vars, []) == Err(EmptyExpression)
  {
    assert RemoveAll([], ' ') == [];
    assert TokensOf([]) == Ok([]);
  }

  lemma CommentOnlyParsed(a: string, b: string) returns (c: Option<string>)
    requires '=' !in a && IsIdentifier(Strip(a)) && '=' !in b && !AllSpace(b) && Strip(b)[0] == '#'
    ensures ParseLine(a + "=" + b) == Ok(AssignmentLine(Strip(a), [], c))
  {
    AssignmentAccepted(a, b);
    var expr := Strip(b);
    FirstIndexAt(expr, '#', 0);
    assert expr[..0] == [];
    assert SplitComment(expr).0 == [];
    c := SplitComment(expr).1;
  }
}
