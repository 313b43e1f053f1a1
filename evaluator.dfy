/** The arithmetic that fermi_engine.py hands to Python's eval once every variable has been
    replaced by its value: + - * / over numbers, with * and / binding tighter than + and -,
    both left-associative, unary signs, and parentheses that group. Modelled as a
    recursive-descent parser from tokens to an expression tree, then an evaluation of the
    tree over the reals. It parses the whole token list before it computes anything, and a
    division by zero is the one failure of the computation. eval also compiles the whole text
    first, so a syntax error wins over a division by zero there too; but eval compiles a
    number or ')' followed by '(' as a call, which fails only when it is reached, after the
    operands to its left. */
module Evaluator {
  import opened Wrappers
  import opened Parser

  datatype Expr =
    | Num(value: real)
    | Neg(operand: Expr)
    | Pos(operand: Expr)
    | Bin(op: Op, left: Expr, right: Expr)

  /** Why evaluation failed: the tokens are not an expression (a SyntaxError of eval, or the
      TypeError of calling a number), or a division by zero (ZeroDivisionError). */
  datatype EvalFailure = Malformed | DivisionByZero

  function Apply(op: Op, a: real, b: real): (r: Result<real, EvalFailure>)
    ensures r.Err? <==> op == Divide && b == 0.0
  {
    match op
    case Plus => Ok(a + b)
    case Minus => Ok(a - b)
    case Times => Ok(a * b)
    case Divide => if b == 0.0 then Err(DivisionByZero) else Ok(a / b)
  }

  /** The value of a tree, its operands computed left to right; the only failure is a division
      by zero. */
  function Eval(e: Expr): (r: Result<real, EvalFailure>)
    ensures r.Err? ==> r.error == DivisionByZero
  {
    match e
    case Num(v) => Ok(v)
    case Neg(x) => (match Eval(x) case Ok(v) => Ok(-v) case Err(f) => Err(f))
    case Pos(x) => Eval(x)
    case Bin(op, l, r) =>
      match Eval(l)
      case Err(f) => Err(f)
      case Ok(a) =>
        match Eval(r)
        case Err(f) => Err(f)
        case Ok(b) => Apply(op, a, b)
  }

  // ---------------------------------------------------------------------------
  // Parentheses
  // ---------------------------------------------------------------------------

  function Weight(t: Token): int {
    if t == LParen then 1 else if t == RParen then -1 else 0
  }

  /** Opening minus closing parentheses among ts[k..j]. */
  function Depth(ts: seq<Token>, k: nat, j: nat): int
    requires k <= j <= |ts|
    decreases j - k
  {
    if k == j then 0 else Depth(ts, k, j - 1) + Weight(ts[j - 1])
  }

  lemma {:induction false} DepthSplit(ts: seq<Token>, k: nat, m: nat, j: nat)
    requires k <= m <= j <= |ts|
    ensures Depth(ts, k, j) == Depth(ts, k, m) + Depth(ts, m, j)
    decreases j - m
  {
    if m < j {
      DepthSplit(ts, k, m, j - 1);
    }
  }

  // ---------------------------------------------------------------------------
  // Parsing
  // ---------------------------------------------------------------------------

  /** A token that can end an operand. */
  predicate Closes(t: Token) {
    t.Number? || t == RParen
  }

  predicate IsAdditive(t: Token) {
    t == Operator(Plus) || t == Operator(Minus)
  }

  predicate IsMultiplicative(t: Token) {
    t == Operator(Times) || t == Operator(Divide)
  }

  /** An operand parsed from position k ends at a later position, just after a number or a
      closing parenthesis, and its parentheses balance. */
  predicate Spans(ts: seq<Token>, k: nat, r: Option<(Expr, nat)>)
    requires k <= |ts|
  {
    r.Some? ==> k < r.value.1 <= |ts| && Closes(ts[r.value.1 - 1]) && Depth(ts, k, r.value.1) == 0
  }

  /** The same for the operator-operand pairs a tail adds after position j, possibly none. */
  predicate TailSpans(ts: seq<Token>, j: nat, r: Option<(Expr, nat)>)
    requires 0 < j <= |ts|
  {
    r.Some? ==>
      j <= r.value.1 <= |ts| && Depth(ts, j, r.value.1) == 0 &&
      (j < r.value.1 ==> Closes(ts[r.value.1 - 1]))
  }

  /** expr := term (('+' | '-') term)* */
  function ParseExpr(ts: seq<Token>, k: nat): (r: Option<(Expr, nat)>)
    requires k <= |ts|
    ensures Spans(ts, k, r)
    decreases |ts| - k, 3
  {
    match ParseTerm(ts, k)
    case None => None
    case Some((t, j)) =>
      match ExprTail(ts, j, t)
      case None => None
      case Some((e, m)) =>
        DepthSplit(ts, k, j, m);
        Some((e, m))
  }

  /** The ('+' | '-') term pairs after the first term, folded to the left onto acc. */
  function ExprTail(ts: seq<Token>, j: nat, acc: Expr): (r: Option<(Expr, nat)>)
    requires 0 < j <= |ts|
    ensures TailSpans(ts, j, r)
    decreases |ts| - j, 3
  {
    if j < |ts| && IsAdditive(ts[j]) then
      match ParseTerm(ts, j + 1)
      case None => None
      case Some((t, m)) =>
        match ExprTail(ts, m, Bin(ts[j].op, acc, t))
        case None => None
        case Some((e, p)) =>
          DepthSplit(ts, j, m, p);
          DepthSplit(ts, j, j + 1, m);
          Some((e, p))
    else Some((acc, j))
  }

  /** term := factor (('*' | '/') factor)* */
  function ParseTerm(ts: seq<Token>, k: nat): (r: Option<(Expr, nat)>)
    requires k <= |ts|
    ensures Spans(ts, k, r)
    decreases |ts| - k, 2
  {
    match ParseFactor(ts, k)
    case None => None
    case Some((f, j)) =>
      match TermTail(ts, j, f)
      case None => None
      case Some((e, m)) =>
        DepthSplit(ts, k, j, m);
        Some((e, m))
  }

  /** The ('*' | '/') factor pairs after the first factor, folded to the left onto acc. */
  function TermTail(ts: seq<Token>, j: nat, acc: Expr): (r: Option<(Expr, nat)>)
    requires 0 < j <= |ts|
    ensures TailSpans(ts, j, r)
    decreases |ts| - j, 2
  {
    if j < |ts| && IsMultiplicative(ts[j]) then
      match ParseFactor(ts, j + 1)
      case None => None
      case Some((f, m)) =>
        match TermTail(ts, m, Bin(ts[j].op, acc, f))
        case None => None
        case Some((e, p)) =>
          DepthSplit(ts, j, m, p);
          DepthSplit(ts, j, j + 1, m);
          Some((e, p))
    else Some((acc, j))
  }

  /** factor := ('+' | '-') factor | primary */
  function ParseFactor(ts: seq<Token>, k: nat): (r: Option<(Expr, nat)>)
    requires k <= |ts|
    ensures Spans(ts, k, r)
    decreases |ts| - k, 1
  {
    if k < |ts| && IsAdditive(ts[k]) then
      match ParseFactor(ts, k + 1)
      case None => None
      case Some((f, j)) =>
        DepthSplit(ts, k, k + 1, j);
        Some((if ts[k] == Operator(Minus) then Neg(f) else Pos(f), j))
    else ParsePrimary(ts, k)
  }

  /** primary := number | '(' expr ')' */
  function ParsePrimary(ts: seq<Token>, k: nat): (r: Option<(Expr, nat)>)
    requires k <= |ts|
    ensures Spans(ts, k, r)
    decreases |ts| - k, 0
  {
    if k == |ts| then None
    else
      match ts[k]
      case Number(v) => Some((Num(v), k + 1))
      case LParen =>
        (match ParseExpr(ts, k + 1)
         case None => None
         case Some((e, j)) =>
           if j < |ts| && ts[j] == RParen then
             DepthSplit(ts, k, k + 1, j + 1);
             DepthSplit(ts, k + 1, j, j + 1);
             Some((e, j + 1))
           else None)
      case _ => None
  }

  /** The tree of a whole token list, when the list is exactly one expression. */
  function ParseTokens(ts: seq<Token>): (r: Option<Expr>)
    ensures r.Some? ==> ts != [] && Closes(ts[|ts| - 1]) && Depth(ts, 0, |ts|) == 0
  {
    match ParseExpr(ts, 0)
    case None => None
    case Some((e, j)) => if j == |ts| then Some(e) else None
  }

  /** What eval gives for the joined tokens: a value, or the failure becomes an error. */
  function Evaluate(ts: seq<Token>): Result<real, EvalFailure> {
    match ParseTokens(ts)
    case None => Err(Malformed)
    case Some(e) => Eval(e)
  }

  // ---------------------------------------------------------------------------
  // Reading trees back
  // ---------------------------------------------------------------------------

  /** The tokens of a tree with every binary operation in parentheses and every sign spelled
      before its operand. */
  function Bracketed(e: Expr): seq<Token> {
    match e
    case Num(v) => [Number(v)]
    case Neg(x) => [Operator(Minus)] + Bracketed(x)
    case Pos(x) => [Operator(Plus)] + Bracketed(x)
    case Bin(op, l, r) => [LParen] + Bracketed(l) + [Operator(op)] + Bracketed(r) + [RParen]
  }

  /** A parenthesised operation is read as one factor once its two operands have been. */
  lemma BinRead(ts: seq<Token>, k: nat, op: Op, l: Expr, r: Expr, p1: nat, p2: nat)
    requires k < p1 < p2 < |ts| && ts[k] == LParen && ts[p1] == Operator(op) && ts[p2] == RParen
    requires ParseFactor(ts, k + 1) == Some((l, p1))
    requires ParseFactor(ts, p1 + 1) == Some((r, p2))
    ensures ParseFactor(ts, k) == Some((Bin(op, l, r), p2 + 1))
  {
    if op == Times || op == Divide {
      assert TermTail(ts, p1, l) == TermTail(ts, p2, Bin(op, l, r));
      assert ParseTerm(ts, k + 1) == Some((Bin(op, l, r), p2));
    } else {
      assert ParseTerm(ts, k + 1) == Some((l, p1));
      assert ParseTerm(ts, p1 + 1) == Some((r, p2));
      assert ExprTail(ts, p1, l) == ExprTail(ts, p2, Bin(op, l, r));
    }
    assert ParseExpr(ts, k + 1) == Some((Bin(op, l, r), p2));
  }

  /** Wherever the bracketed tokens of a tree stand, a factor read there is that tree, and it
      ends right after them. */
  lemma {:induction false} FactorReadsBack(pre: seq<Token>, e: Expr, post: seq<Token>)
    ensures ParseFactor(pre + Bracketed(e) + post, |pre|) == Some((e, |pre| + |Bracketed(e)|))
    decreases e, 2
  {
    var ts := pre + Bracketed(e) + post;
    match e
    case Num(v) =>
      assert ts[|pre|] == Number(v);
    case Neg(x) =>
      SignReadsBack(pre, Minus, x, post);
    case Pos(x) =>
      SignReadsBack(pre, Plus, x, post);
    case Bin(op, l, r) =>
      BinReadsBack(pre, op, l, r, post);
  }

  lemma {:induction false} SignReadsBack(pre: seq<Token>, sign: Op, x: Expr, post: seq<Token>)
    requires sign == Plus || sign == Minus
    ensures var e := if sign == Minus then Neg(x) else Pos(x);
      ParseFactor(pre + Bracketed(e) + post, |pre|) == Some((e, |pre| + |Bracketed(e)|))
    decreases x, 3
  {
    var e := if sign == Minus then Neg(x) else Pos(x);
    var ts := pre + Bracketed(e) + post;
    assert ts == (pre + [Operator(sign)]) + Bracketed(x) + post;
    FactorReadsBack(pre + [Operator(sign)], x, post);
    assert ts[|pre|] == Operator(sign);
  }

  lemma {:induction false} BinReadsBack(pre: seq<Token>, op: Op, l: Expr, r: Expr, post: seq<Token>)
    ensures var e := Bin(op, l, r);
      ParseFactor(pre + Bracketed(e) + post, |pre|) == Some((e, |pre| + |Bracketed(e)|))
    decreases Bin(op, l, r), 1
  {
    var ts := pre + Bracketed(Bin(op, l, r)) + post;
    var k := |pre|;
    var p1 := k + 1 + |Bracketed(l)|;
    var p2 := p1 + 1 + |Bracketed(r)|;
    LeftOperandReadsBack(ts, pre, op, l, r, post, k, p1);
    RightOperandReadsBack(ts, pre, op, l, r, post, p1, p2);
    BinRead(ts, k, op, l, r, p1, p2);
  }

  /** The left operand of a bracketed operation is read back right after its '('. */
  lemma {:induction false} LeftOperandReadsBack(ts: seq<Token>, pre: seq<Token>, op: Op, l: Expr, r: Expr,
                                                post: seq<Token>, k: nat, p1: nat)
    requires ts == pre + Bracketed(Bin(op, l, r)) + post
    requires k == |pre| && p1 == k + 1 + |Bracketed(l)|
    ensures k < p1 < |ts| && ts[k] == LParen && ts[p1] == Operator(op)
    ensures ParseFactor(ts, k + 1) == Some((l, p1))
    decreases Bin(op, l, r), 0
  {
    var pre1 := pre + [LParen];
    var post1 := [Operator(op)] + Bracketed(r) + [RParen] + post;
    assert Bracketed(Bin(op, l, r)) == [LParen] + Bracketed(l) + [Operator(op)] + Bracketed(r) + [RParen];
    OperandLayout(pre, Bracketed(l), op, Bracketed(r), post);
    FactorAt(ts, pre1, l, post1, k + 1, p1);
  }

  /** The right operand of a bracketed operation is read back right after its operator, and is
      followed by the ')' that closes the operation. */
  lemma {:induction false} RightOperandReadsBack(ts: seq<Token>, pre: seq<Token>, op: Op, l: Expr, r: Expr,
                                                 post: seq<Token>, p1: nat, p2: nat)
    requires ts == pre + Bracketed(Bin(op, l, r)) + post
    requires p1 == |pre| + 1 + |Bracketed(l)| && p2 == p1 + 1 + |Bracketed(r)|
    ensures p1 < p2 < |ts| && ts[p2] == RParen && p2 + 1 == |pre| + |Bracketed(Bin(op, l, r))|
    ensures ParseFactor(ts, p1 + 1) == Some((r, p2))
    decreases Bin(op, l, r), 0
  {
    var pre2 := pre + [LParen] + Bracketed(l) + [Operator(op)];
    var post2 := [RParen] + post;
    assert Bracketed(Bin(op, l, r)) == [LParen] + Bracketed(l) + [Operator(op)] + Bracketed(r) + [RParen];
    OperandLayout(pre, Bracketed(l), op, Bracketed(r), post);
    FactorAt(ts, pre2, r, post2, p1 + 1, p2);
  }

  /** The tokens of a bracketed operation, regrouped around either operand. */
  lemma OperandLayout(pre: seq<Token>, a: seq<Token>, op: Op, b: seq<Token>, post: seq<Token>)
    ensures var ts := pre + ([LParen] + a + [Operator(op)] + b + [RParen]) + post;
      && ts == (pre + [LParen]) + a + ([Operator(op)] + b + [RParen] + post)
      && ts == (pre + [LParen] + a + [Operator(op)]) + b + ([RParen] + post)
  {
  }

  /** A factor that reaches the end of the tokens is the whole expression. */
  lemma WholeFactor(ts: seq<Token>, e: Expr)
    requires ParseFactor(ts, 0) == Some((e, |ts|))
    ensures ParseTokens(ts) == Some(e)
  {
    assert TermTail(ts, |ts|, e) == Some((e, |ts|));
    assert ParseTerm(ts, 0) == Some((e, |ts|));
    assert ExprTail(ts, |ts|, e) == Some((e, |ts|));
    assert ParseExpr(ts, 0) == Some((e, |ts|));
  }

  /** The evaluator reads the bracketed tokens of every tree back as that tree, so it computes
      exactly the value of the tree. */
  lemma BracketedReadsBack(e: Expr)
    ensures ParseTokens(Bracketed(e)) == Some(e)
    ensures Evaluate(Bracketed(e)) == Eval(e)
  {
    assert [] + Bracketed(e) + [] == Bracketed(e);
    FactorReadsBack([], e, []);
    WholeFactor(Bracketed(e), e);
  }

  // ---------------------------------------------------------------------------
  // Precedence, associativity, grouping, failures
  // ---------------------------------------------------------------------------

  predicate Additive(op: Op) {
    op == Plus || op == Minus
  }

  /** The tokens of x o y with x and y bracketed. */
  function Two(x: Expr, o: Op, y: Expr): seq<Token> {
    Bracketed(x) + [Operator(o)] + Bracketed(y)
  }

  /** The tokens of x o1 y o2 z with x, y and z bracketed. */
  function Three(x: Expr, o1: Op, y: Expr, o2: Op, z: Expr): seq<Token> {
    Bracketed(x) + [Operator(o1)] + Bracketed(y) + [Operator(o2)] + Bracketed(z)
  }

  /** One step of each grammar rule, as the proofs below take them. */
  lemma TermTailStop(ts: seq<Token>, j: nat, acc: Expr)
    requires 0 < j <= |ts| && (j == |ts| || !IsMultiplicative(ts[j]))
    ensures TermTail(ts, j, acc) == Some((acc, j))
  {
  }

  lemma TermTailStep(ts: seq<Token>, j: nat, acc: Expr, f: Expr, m: nat)
    requires 0 < j < |ts| && IsMultiplicative(ts[j]) && ParseFactor(ts, j + 1) == Some((f, m))
    ensures TermTail(ts, j, acc) == TermTail(ts, m, Bin(ts[j].op, acc, f))
  {
  }

  lemma ExprTailStop(ts: seq<Token>, j: nat, acc: Expr)
    requires 0 < j <= |ts| && (j == |ts| || !IsAdditive(ts[j]))
    ensures ExprTail(ts, j, acc) == Some((acc, j))
  {
  }

  lemma ExprTailStep(ts: seq<Token>, j: nat, acc: Expr, t: Expr, m: nat)
    requires 0 < j < |ts| && IsAdditive(ts[j]) && ParseTerm(ts, j + 1) == Some((t, m))
    ensures ExprTail(ts, j, acc) == ExprTail(ts, m, Bin(ts[j].op, acc, t))
  {
  }

  lemma TermFrom(ts: seq<Token>, k: nat, f: Expr, j: nat)
    requires k <= |ts| && ParseFactor(ts, k) == Some((f, j))
    ensures ParseTerm(ts, k) == TermTail(ts, j, f)
  {
  }

  lemma ExprFrom(ts: seq<Token>, k: nat, t: Expr, j: nat)
    requires k <= |ts| && ParseTerm(ts, k) == Some((t, j))
    ensures ParseExpr(ts, k) == ExprTail(ts, j, t)
  {
  }

  lemma WholeExpr(ts: seq<Token>, e: Expr)
    requires ParseExpr(ts, 0) == Some((e, |ts|))
    ensures ParseTokens(ts) == Some(e)
  {
  }

  /** FactorReadsBack for tokens laid out as pre, a bracketed tree, post: the factor starting
      at k, the length of pre, ends at j. */
  lemma FactorAt(ts: seq<Token>, pre: seq<Token>, e: Expr, post: seq<Token>, k: nat, j: nat)
    requires ts == pre + Bracketed(e) + post && k == |pre| && j == k + |Bracketed(e)|
    ensures j <= |ts| && ParseFactor(ts, k) == Some((e, j))
    decreases e, 3
  {
    FactorReadsBack(pre, e, post);
  }

  lemma ThreeFactors(ts: seq<Token>, x: Expr, o1: Op, y: Expr, o2: Op, z: Expr) returns (p1: nat, p2: nat, n: nat)
    requires ts == Three(x, o1, y, o2, z)
    ensures 0 < p1 < p2 < n == |ts| && ts[p1] == Operator(o1) && ts[p2] == Operator(o2)
    ensures ParseFactor(ts, 0) == Some((x, p1))
    ensures ParseFactor(ts, p1 + 1) == Some((y, p2))
    ensures ParseFactor(ts, p2 + 1) == Some((z, n))
  {
    p1 := FirstOfThree(ts, x, o1, y, o2, z);
    p2 := SecondOfThree(ts, x, o1, y, o2, z, p1);
    n := ThirdOfThree(ts, x, o1, y, o2, z, p2);
  }

  lemma FirstOfThree(ts: seq<Token>, x: Expr, o1: Op, y: Expr, o2: Op, z: Expr) returns (p1: nat)
    requires ts == Three(x, o1, y, o2, z)
    ensures p1 == |Bracketed(x)| && 0 < p1 < |ts| && ts[p1] == Operator(o1)
    ensures ParseFactor(ts, 0) == Some((x, p1))
  {
    var ty, tz := Bracketed(y), Bracketed(z);
    p1 := |Bracketed(x)|;
    assert ts == Bracketed(x) + [Operator(o1)] + (ty + [Operator(o2)] + tz);
    FactorThenOperator(ts, [], x, o1, ty + [Operator(o2)] + tz, 0, p1);
  }

  lemma SecondOfThree(ts: seq<Token>, x: Expr, o1: Op, y: Expr, o2: Op, z: Expr, p1: nat) returns (p2: nat)
    requires ts == Three(x, o1, y, o2, z) && p1 == |Bracketed(x)|
    ensures p2 == p1 + 1 + |Bracketed(y)| && p1 < p2 < |ts| && ts[p2] == Operator(o2)
    ensures ParseFactor(ts, p1 + 1) == Some((y, p2))
  {
    var a := Bracketed(x) + [Operator(o1)];
    p2 := p1 + 1 + |Bracketed(y)|;
    assert ts == a + Bracketed(y) + [Operator(o2)] + Bracketed(z);
    FactorThenOperator(ts, a, y, o2, Bracketed(z), p1 + 1, p2);
  }

  lemma ThirdOfThree(ts: seq<Token>, x: Expr, o1: Op, y: Expr, o2: Op, z: Expr, p2: nat) returns (n: nat)
    requires ts == Three(x, o1, y, o2, z) && p2 == |Bracketed(x)| + 1 + |Bracketed(y)|
    ensures n == |ts| && p2 < n
    ensures ParseFactor(ts, p2 + 1) == Some((z, n))
  {
    var b := Bracketed(x) + [Operator(o1)] + Bracketed(y) + [Operator(o2)];
    n := |ts|;
    assert ts == b + Bracketed(z) + [];
    FactorAt(ts, b, z, [], p2 + 1, n);
  }

  /** FactorAt for a factor followed by an operator. */
  lemma FactorThenOperator(ts: seq<Token>, pre: seq<Token>, e: Expr, o: Op, post: seq<Token>, k: nat, j: nat)
    requires ts == pre + Bracketed(e) + [Operator(o)] + post && k == |pre| && j == k + |Bracketed(e)|
    ensures k < j < |ts| && ts[j] == Operator(o) && ParseFactor(ts, k) == Some((e, j))
  {
    assert ts == pre + Bracketed(e) + ([Operator(o)] + post);
    FactorAt(ts, pre, e, [Operator(o)] + post, k, j);
  }

  /** * and / bind tighter than + and -: x + y * z is x + (y * z). */
  lemma MultiplicativeBindsTighter(x: Expr, o1: Op, y: Expr, o2: Op, z: Expr)
    requires Additive(o1) && !Additive(o2)
    ensures ParseTokens(Three(x, o1, y, o2, z)) == Some(Bin(o1, x, Bin(o2, y, z)))
  {
    var ts := Three(x, o1, y, o2, z);
    var p1, p2, n := ThreeFactors(ts, x, o1, y, o2, z);
    TermFrom(ts, 0, x, p1);
    TermTailStop(ts, p1, x);
    TermFrom(ts, p1 + 1, y, p2);
    TermTailStep(ts, p2, y, z, n);
    TermTailStop(ts, n, Bin(o2, y, z));
    ExprFrom(ts, 0, x, p1);
    ExprTailStep(ts, p1, x, Bin(o2, y, z), n);
    ExprTailStop(ts, n, Bin(o1, x, Bin(o2, y, z)));
    WholeExpr(ts, Bin(o1, x, Bin(o2, y, z)));
  }

  /** ... and on the left: x * y + z is (x * y) + z. */
  lemma MultiplicativeFirst(x: Expr, o1: Op, y: Expr, o2: Op, z: Expr)
    requires !Additive(o1) && Additive(o2)
    ensures ParseTokens(Three(x, o1, y, o2, z)) == Some(Bin(o2, Bin(o1, x, y), z))
  {
    var ts := Three(x, o1, y, o2, z);
    var p1, p2, n := ThreeFactors(ts, x, o1, y, o2, z);
    TermFrom(ts, 0, x, p1);
    TermTailStep(ts, p1, x, y, p2);
    TermTailStop(ts, p2, Bin(o1, x, y));
    TermFrom(ts, p2 + 1, z, n);
    TermTailStop(ts, n, z);
    ExprFrom(ts, 0, Bin(o1, x, y), p2);
    ExprTailStep(ts, p2, Bin(o1, x, y), z, n);
    ExprTailStop(ts, n, Bin(o2, Bin(o1, x, y), z));
    WholeExpr(ts, Bin(o2, Bin(o1, x, y), z));
  }

  /** + and - associate to the left: x - y - z is (x - y) - z. */
  lemma AdditiveLeftAssociative(x: Expr, o1: Op, y: Expr, o2: Op, z: Expr)
    requires Additive(o1) && Additive(o2)
    ensures ParseTokens(Three(x, o1, y, o2, z)) == Some(Bin(o2, Bin(o1, x, y), z))
  {
    var ts := Three(x, o1, y, o2, z);
    var p1, p2, n := ThreeFactors(ts, x, o1, y, o2, z);
    TermFrom(ts, 0, x, p1);
    TermTailStop(ts, p1, x);
    TermFrom(ts, p1 + 1, y, p2);
    TermTailStop(ts, p2, y);
    TermFrom(ts, p2 + 1, z, n);
    TermTailStop(ts, n, z);
    ExprFrom(ts, 0, x, p1);
    ExprTailStep(ts, p1, x, y, p2);
    ExprTailStep(ts, p2, Bin(o1, x, y), z, n);
    ExprTailStop(ts, n, Bin(o2, Bin(o1, x, y), z));
    WholeExpr(ts, Bin(o2, Bin(o1, x, y), z));
  }

  /** * and / associate to the left: x / y / z is (x / y) / z. */
  lemma MultiplicativeLeftAssociative(x: Expr, o1: Op, y: Expr, o2: Op, z: Expr)
    requires !Additive(o1) && !Additive(o2)
    ensures ParseTokens(Three(x, o1, y, o2, z)) == Some(Bin(o2, Bin(o1, x, y), z))
  {
    var ts := Three(x, o1, y, o2, z);
    var p1, p2, n := ThreeFactors(ts, x, o1, y, o2, z);
    TermFrom(ts, 0, x, p1);
    TermTailStep(ts, p1, x, y, p2);
    TermTailStep(ts, p2, Bin(o1, x, y), z, n);
    TermTailStop(ts, n, Bin(o2, Bin(o1, x, y), z));
    ExprFrom(ts, 0, Bin(o2, Bin(o1, x, y), z), n);
    ExprTailStop(ts, n, Bin(o2, Bin(o1, x, y), z));
    WholeExpr(ts, Bin(o2, Bin(o1, x, y), z));
  }

  /** Parentheses group: (x + y) * z multiplies the sum. */
  lemma ParenthesesGroup(x: Expr, o1: Op, y: Expr, o2: Op, z: Expr)
    requires Additive(o1) && !Additive(o2)
    ensures ParseTokens([LParen] + Two(x, o1, y) + [RParen] + [Operator(o2)] + Bracketed(z))
      == Some(Bin(o2, Bin(o1, x, y), z))
  {
    var sum := Bin(o1, x, y);
    Parenthesized(Bracketed(x), [Operator(o1)], Bracketed(y));
    assert Bracketed(sum) == [LParen] + Two(x, o1, y) + [RParen];
    TwoParsed(sum, o2, z);
  }

  lemma Parenthesized(a: seq<Token>, b: seq<Token>, c: seq<Token>)
    ensures [LParen] + a + b + c + [RParen] == [LParen] + (a + b + c) + [RParen]
  {
  }

  /** x o y is read as one operation. */
  lemma TwoParsed(x: Expr, o: Op, y: Expr)
    ensures ParseTokens(Two(x, o, y)) == Some(Bin(o, x, y))
  {
    var ts := Two(x, o, y);
    var p, n := TwoFactors(ts, x, o, y);
    TermFrom(ts, 0, x, p);
    if Additive(o) {
      TermTailStop(ts, p, x);
      TermFrom(ts, p + 1, y, n);
      TermTailStop(ts, n, y);
      ExprFrom(ts, 0, x, p);
      ExprTailStep(ts, p, x, y, n);
    } else {
      TermTailStep(ts, p, x, y, n);
      TermTailStop(ts, n, Bin(o, x, y));
      ExprFrom(ts, 0, Bin(o, x, y), n);
    }
    ExprTailStop(ts, n, Bin(o, x, y));
    WholeExpr(ts, Bin(o, x, y));
  }

  /** Where the operator of Two stands, and the two factors on either side of it. */
  lemma TwoFactors(ts: seq<Token>, x: Expr, o: Op, y: Expr) returns (p: nat, n: nat)
    requires ts == Two(x, o, y)
    ensures 0 < p < n == |ts| && ts[p] == Operator(o)
    ensures ParseFactor(ts, 0) == Some((x, p))
    ensures ParseFactor(ts, p + 1) == Some((y, n))
  {
    p := FirstOfTwo(ts, x, o, y);
    n := SecondOfTwo(ts, x, o, y, p);
  }

  lemma FirstOfTwo(ts: seq<Token>, x: Expr, o: Op, y: Expr) returns (p: nat)
    requires ts == Two(x, o, y)
    ensures p == |Bracketed(x)| && 0 < p < |ts| && ts[p] == Operator(o)
    ensures ParseFactor(ts, 0) == Some((x, p))
  {
    p := |Bracketed(x)|;
    assert ts == [] + Bracketed(x) + [Operator(o)] + Bracketed(y);
    FactorThenOperator(ts, [], x, o, Bracketed(y), 0, p);
  }

  lemma SecondOfTwo(ts: seq<Token>, x: Expr, o: Op, y: Expr, p: nat) returns (n: nat)
    requires ts == Two(x, o, y) && p == |Bracketed(x)|
    ensures n == |ts| && p < n
    ensures ParseFactor(ts, p + 1) == Some((y, n))
  {
    n := |ts|;
    assert ts == (Bracketed(x) + [Operator(o)]) + Bracketed(y) + [];
    FactorAt(ts, Bracketed(x) + [Operator(o)], y, [], p + 1, n);
  }

  /** Dividing by an operand whose value is zero fails, once the left operand has a value. */
  lemma DivisionByZeroFails(x: Expr, y: Expr)
    requires Eval(x).Ok? && Eval(y) == Ok(0.0)
    ensures Evaluate(Two(x, Divide, y)) == Err(DivisionByZero)
  {
    TwoParsed(x, Divide, y);
  }

  /** A dangling operator at the end makes the tokens malformed. */
  lemma DanglingOperatorRejected(ts: seq<Token>, op: Op)
    ensures Evaluate(ts + [Operator(op)]) == Err(Malformed)
  {
  }

  /** Unbalanced parentheses make the tokens malformed. */
  lemma UnbalancedRejected(ts: seq<Token>)
    requires Depth(ts, 0, |ts|) != 0
    ensures Evaluate(ts) == Err(Malformed)
  {
  }

  /** The value of tokens that parse is the value of their tree. */
  lemma EvaluateParsed(ts: seq<Token>, e: Expr)
    requires ParseTokens(ts) == Some(e)
    ensures Evaluate(ts) == Eval(e)
  {
  }

  /** The arithmetic of the engine's own examples, for any numbers: a + b * c (10 + 20 * 2 is
      50), (a + b) * c ((10 + 20) * 2 is 60), a - b (20 - 5 is 15) and a / b (20 / 4 is 5). */
  lemma SumOfProduct(a: real, b: real, c: real)
    ensures Evaluate(Three(Num(a), Plus, Num(b), Times, Num(c))) == Ok(a + b * c)
  {
    var e := Bin(Plus, Num(a), Bin(Times, Num(b), Num(c)));
    MultiplicativeBindsTighter(Num(a), Plus, Num(b), Times, Num(c));
    EvaluateParsed(Three(Num(a), Plus, Num(b), Times, Num(c)), e);
    assert Eval(Bin(Times, Num(b), Num(c))) == Ok(b * c);
  }

  lemma ProductOfSum(a: real, b: real, c: real)
    ensures Evaluate([LParen] + Two(Num(a), Plus, Num(b)) + [RParen] + [Operator(Times)]
      + Bracketed(Num(c))) == Ok((a + b) * c)
  {
    var e := Bin(Times, Bin(Plus, Num(a), Num(b)), Num(c));
    ParenthesesGroup(Num(a), Plus, Num(b), Times, Num(c));
    EvaluateParsed([LParen] + Two(Num(a), Plus, Num(b)) + [RParen] + [Operator(Times)]
      + Bracketed(Num(c)), e);
    assert Eval(Bin(Plus, Num(a), Num(b))) == Ok(a + b);
    assert Eval(e) == Apply(Times, a + b, c);
  }

  lemma Difference(a: real, b: real)
    ensures Evaluate(Two(Num(a), Minus, Num(b))) == Ok(a - b)
  {
    TwoParsed(Num(a), Minus, Num(b));
    EvaluateParsed(Two(Num(a), Minus, Num(b)), Bin(Minus, Num(a), Num(b)));
  }

  lemma Quotient(a: real, b: real)
    ensures Evaluate(Two(Num(a), Divide, Num(b))) == if b == 0.0 then Err(DivisionByZero) else Ok(a / b)
  {
    TwoParsed(Num(a), Divide, Num(b));
    EvaluateParsed(Two(Num(a), Divide, Num(b)), Bin(Divide, Num(a), Num(b)));
  }
}
