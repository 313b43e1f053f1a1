/** fermi_parser.py: parse_line, which classifies one line of a model, and tokenize, which
    cuts an expression into numbers, variables, operators and parentheses. */
module Parser {
  import opened Wrappers
  import opened Text
  import opened Formatter

  /** ParseError, one constructor per place fermi_parser.py raises it; `line` is the line
      after its trailing whitespace was removed. */
  datatype ParseError =
    | MissingName(line: string)
    | InvalidName(name: string, line: string)
    | MissingExpression(line: string)
    | EqualsInExpression(line: string)
    | InvalidSyntax(line: string)
    | InvalidNumber(text: string)
    | InvalidCharacter(c: char)

  /** The message str(e) gives for each error. */
  function ErrorMessage(e: ParseError): string {
    match e
    case MissingName(line) => "Missing variable name: " + line
    case InvalidName(name, line) => "Invalid variable name '" + name + "': " + line
    case MissingExpression(line) => "Missing expression after '=': " + line
    case EqualsInExpression(line) => "Invalid syntax: '=' not allowed in expression: " + line
    case InvalidSyntax(line) => "Invalid syntax: " + line
    case InvalidNumber(text) => "Invalid number format: " + text
    case InvalidCharacter(c) => "Invalid character in expression: '" + [c] + "'"
  }

  /** The record parse_line returns: {"type": "empty"}, {"type": "comment", "text": ...} or
      {"type": "assignment", "var": ..., "expr": ...} with an optional "comment". */
  datatype Line =
    | EmptyLine
    | CommentLine(text: string)
    | AssignmentLine(name: string, expr: string, comment: Option<string>)

  // ---------------------------------------------------------------------------
  // parse_line
  // ---------------------------------------------------------------------------

  /** What parse_line can return: a comment text keeps no trailing whitespace; an assignment
      names an identifier, its expression is stripped and holds neither '=' nor '#', its
      comment is stripped, nonempty and holds no '='. The expression may be empty: "x = #"
      leaves nothing before the '#'. */
  predicate WellFormed(l: Line) {
    match l
    case EmptyLine => true
    case CommentLine(t) => t == [] || !IsSpace(t[|t| - 1])
    case AssignmentLine(n, e, c) =>
      IsIdentifier(n) && Trimmed(e) && '=' !in e && '#' !in e &&
      (c.Some? ==> c.value != [] && Trimmed(c.value) && '=' !in c.value)
  }

  /** Split a stripped expression at its first '#' into the stripped expression before it and
      the stripped comment after it, the comment kept only when nonempty. */
  function SplitComment(expr: string): (r: (string, Option<string>))
    requires Trimmed(expr)
    ensures Trimmed(r.0) && '#' !in r.0
    ensures r.1.Some? ==> r.1.value != [] && Trimmed(r.1.value)
    ensures '#' !in expr ==> r == (expr, None)
  {
    var j := FirstIndex(expr, '#');
    if j < |expr| then
      var e := Strip(expr[..j]);
      var c := Strip(expr[j + 1..]);
      StripKeepsAbsence(expr[..j], '#');
      (e, if c == [] then None else Some(c))
    else
      (expr, None)
  }

  /** A character absent from s is absent from every slice of s. */
  lemma SliceKeepsAbsence(s: string, i: nat, j: nat, c: char)
    requires i <= j <= |s| && c !in s
    ensures c !in s[i..j]
  {
    assert forall k :: 0 <= k < j - i ==> s[i..j][k] == s[i + k];
  }

  /** A character absent from s is absent from Strip(s). */
  lemma StripKeepsAbsence(s: string, c: char)
    requires c !in s
    ensures c !in Strip(s)
  {
    var i, j := StripParts(s);
    SliceKeepsAbsence(s, i, j, c);
  }

  /** Splitting off the comment introduces no character that was not in the expression. */
  lemma SplitCommentKeepsAbsence(expr: string, ch: char)
    requires Trimmed(expr) && ch !in expr
    ensures ch !in SplitComment(expr).0
    ensures SplitComment(expr).1.Some? ==> ch !in SplitComment(expr).1.value
  {
    if '#' in expr {
      var j := FirstIndex(expr, '#');
      SliceKeepsAbsence(expr, 0, j, ch);
      SliceKeepsAbsence(expr, j + 1, |expr|, ch);
      assert expr[0..j] == expr[..j] && expr[j + 1..|expr|] == expr[j + 1..];
      StripKeepsAbsence(expr[..j], ch);
      StripKeepsAbsence(expr[j + 1..], ch);
    }
  }

  /** The assignment branch of parse_line, for a line l (already right-stripped) that holds '='. */
  function ParseAssignment(l: string): (r: Result<Line, ParseError>)
    requires '=' in l
    ensures r.Ok? ==> r.value.AssignmentLine? && WellFormed(r.value)
    ensures r.Err? ==> !r.error.InvalidSyntax?
  {
    var i := FirstIndex(l, '=');
    CheckAssignment(l, Strip(l[..i]), Strip(l[i + 1..]))
  }

  /** The checks parse_line makes on the stripped name and expression on either side of the
      first '=', in its order, and the split of the expression at its first '#'. */
  function CheckAssignment(l: string, name: string, expr: string): (r: Result<Line, ParseError>)
    requires Trimmed(expr)
    ensures r.Ok? ==> r.value.AssignmentLine? && WellFormed(r.value)
    ensures r.Err? ==> !r.error.InvalidSyntax?
  {
    if name == [] then Err(MissingName(l))
    else if !IsIdentifier(name) then Err(InvalidName(name, l))
    else if expr == [] then Err(MissingExpression(l))
    else if '=' in expr then Err(EqualsInExpression(l))
    else
      SplitCommentKeepsAbsence(expr, '=');
      var (e, c) := SplitComment(expr);
      Ok(AssignmentLine(name, e, c))
  }

  /** parse_line after its first step, line.rstrip(). */
  function ParseRightStripped(l: string): (r: Result<Line, ParseError>)
    requires l == [] || !IsSpace(l[|l| - 1])
    ensures r == Ok(EmptyLine) <==> l == []
    ensures r.Ok? && r.value.CommentLine? <==> l != [] && Strip(l)[0] == '#'
    ensures r.Ok? && r.value.CommentLine? ==> r.value.text == Strip(l)[1..]
    ensures r.Ok? ==> WellFormed(r.value)
    ensures r == Err(InvalidSyntax(l)) <==> l != [] && Strip(l)[0] != '#' && '=' !in l
  {
    if l == [] then Ok(EmptyLine)
    else
      assert !AllSpace(l) by { assert !IsSpace(l[|l| - 1]); }
      var s := Strip(l);
      if s[0] == '#' then
        CommentTextWellFormed(s);
        Ok(CommentLine(s[1..]))
      else if '=' in l then ParseAssignment(l)
      else Err(InvalidSyntax(l))
  }

  /** The text of a comment keeps no trailing whitespace. */
  lemma CommentTextWellFormed(s: string)
    requires s != [] && Trimmed(s)
    ensures WellFormed(CommentLine(s[1..]))
  {
    if |s| > 1 {
      assert s[1..][|s| - 2] == s[|s| - 1];
    }
  }

  /** parse_line: what it returns is well formed, and it is the empty line exactly for a line
      of whitespace. */
  function ParseLine(line: string): (r: Result<Line, ParseError>)
    ensures r.Ok? ==> WellFormed(r.value)
    ensures r == Ok(EmptyLine) <==> AllSpace(line)
  {
    SeparatorsNotSpace();
    TrimEndKeeps(line, '=');
    ParseRightStripped(TrimEnd(line))
  }

  /** A line is a comment exactly when its first non-blank character is '#', which is checked
      before any '='; the comment text is the rest of the stripped line. */
  lemma ParseLineComment(line: string)
    ensures ParseLine(line).Ok? && ParseLine(line).value.CommentLine? <==>
      !AllSpace(line) && Strip(line)[0] == '#'
    ensures ParseLine(line).Ok? && ParseLine(line).value.CommentLine? ==>
      ParseLine(line).value.text == Strip(line)[1..]
  {
    SeparatorsNotSpace();
    TrimEndKeeps(line, '=');
    StripTrimEnd(line);
  }

  /** A nonblank line that is no comment and has no '=' is an invalid-syntax error, and no other
      line is. */
  lemma ParseLineWithoutEquals(line: string)
    ensures ParseLine(line) == Err(InvalidSyntax(TrimEnd(line))) <==>
      !AllSpace(line) && Strip(line)[0] != '#' && '=' !in line
  {
    SeparatorsNotSpace();
    TrimEndKeeps(line, '=');
    StripTrimEnd(line);
  }

  /** The right-stripped line a + "=" + b, where a holds no '=': its first '=' is the one after
      a, and what follows it strips to what b strips to. */
  lemma EqualsSplit(a: string, b: string)
    requires '=' !in a
    ensures var line := a + "=" + b; var l := TrimEnd(line);
      && |a| < |l| && l[..|a|] == a && FirstIndex(l, '=') == |a| && Strip(l[|a| + 1..]) == Strip(b)
  {
    var line := a + "=" + b;
    var l := TrimEnd(line);
    var trail := line[|l|..];
    TrimEndTrail(line);
    assert line[|a|] == '=';
    assert |a| < |l|;
    assert l[..|a|] == a;
    FirstIndexAt(l, '=', |a|);
    AfterSeparator(a, '=', b);
    SuffixSplit(line, |a| + 1, |l|);
    PrefixDrop(line, |a| + 1, |l|);
    StripBeforeSpace(l[|a| + 1..], trail);
  }

  /** A line whose first non-blank character is not '#' is no comment. */
  lemma NotCommentLine(a: string, b: string)
    requires '=' !in a && (AllSpace(a) || Strip(a)[0] != '#')
    ensures var line := a + "=" + b; Strip(TrimEnd(line)) != [] && Strip(TrimEnd(line))[0] != '#'
  {
    StripTrimEnd(a + "=" + b);
    if AllSpace(a) {
      BlankBeforeEquals(a, b);
    } else {
      Reassociate(a, "=", b);
      StripHead(a, "=" + b);
    }
  }

  /** With only whitespace before it, the '=' is the first character Strip keeps. */
  lemma BlankBeforeEquals(a: string, b: string)
    requires AllSpace(a)
    ensures Strip(a + "=" + b) != [] && Strip(a + "=" + b)[0] == '='
  {
    Reassociate(a, "=", b);
    StripAfterSpace(a, "=" + b);
    SeparatorsNotSpace();
    assert !AllSpace("=") by { assert !IsSpace("="[0]); }
    StripHead("=", b);
    assert TrimStart("=") == "=";
  }

  /** An assignment splits on the first '=': parse_line strips the two sides and checks them. */
  lemma SplitsOnFirstEquals(a: string, b: string)
    requires '=' !in a && (AllSpace(a) || Strip(a)[0] != '#')
    ensures var line := a + "=" + b;
      ParseLine(line) == CheckAssignment(TrimEnd(line), Strip(a), Strip(b))
  {
    EqualsSplit(a, b);
    NotCommentLine(a, b);
  }

  /** Nothing but whitespace before the first '=' is a missing name. */
  lemma MissingNameRejected(a: string, b: string)
    requires AllSpace(a)
    ensures ParseLine(a + "=" + b) == Err(MissingName(TrimEnd(a + "=" + b)))
  {
    assert '=' !in a;
    SplitsOnFirstEquals(a, b);
  }

  /** A name that is no identifier is rejected with the name. */
  lemma InvalidNameRejected(a: string, b: string)
    requires '=' !in a && !AllSpace(a) && Strip(a)[0] != '#' && !IsIdentifier(Strip(a))
    ensures ParseLine(a + "=" + b) == Err(InvalidName(Strip(a), TrimEnd(a + "=" + b)))
  {
    SplitsOnFirstEquals(a, b);
  }

  /** A valid name followed by nothing but whitespace after '=' is a missing expression. */
  lemma MissingExpressionRejected(a: string, b: string)
    requires '=' !in a && IsIdentifier(Strip(a)) && AllSpace(b)
    ensures ParseLine(a + "=" + b) == Err(MissingExpression(TrimEnd(a + "=" + b)))
  {
    SplitsOnFirstEquals(a, b);
  }

  /** A second '=' anywhere after the first, a trailing comment included, is rejected. */
  lemma SecondEqualsRejected(a: string, b: string)
    requires '=' !in a && IsIdentifier(Strip(a)) && '=' in b
    ensures ParseLine(a + "=" + b) == Err(EqualsInExpression(TrimEnd(a + "=" + b)))
  {
    SeparatorsNotSpace();
    StripKeeps(b, '=');
    SplitsOnFirstEquals(a, b);
  }

  /** Otherwise the line is an assignment of the stripped expression, split at its first '#'. */
  lemma AssignmentAccepted(a: string, b: string)
    requires '=' !in a && IsIdentifier(Strip(a)) && !AllSpace(b) && '=' !in b
    ensures var (e, c) := SplitComment(Strip(b));
      ParseLine(a + "=" + b) == Ok(AssignmentLine(Strip(a), e, c))
  {
    SeparatorsNotSpace();
    StripKeeps(b, '=');
    SplitsOnFirstEquals(a, b);
  }

  /** A line that parse_line reads back as l: the name, " = ", the expression and, when there is
      a comment or nothing else would keep the '=' from being last, " #" and the comment. */
  function Unparse(l: Line): string {
    match l
    case EmptyLine => ""
    case CommentLine(t) => "#" + t
    case AssignmentLine(n, e, c) => n + " = " + e + CommentTail(e, c)
  }

  function CommentTail(e: string, c: Option<string>): string {
    match c
    case Some(t) => " # " + t
    case None => if e == [] then " #" else ""
  }

  /** Every well-formed line is what parse_line returns for its Unparse; together with the
      well-formedness of what parse_line returns, Unparse is a right inverse of parse_line. */
  lemma UnparseParse(l: Line)
    requires WellFormed(l)
    ensures ParseLine(Unparse(l)) == Ok(l)
  {
    match l
    case EmptyLine =>
    case CommentLine(t) =>
      CommentRoundTrip(t);
    case AssignmentLine(n, e, c) =>
      AssignmentRoundTrip(n, e, c);
  }

  lemma CommentRoundTrip(t: string)
    requires t == [] || !IsSpace(t[|t| - 1])
    ensures ParseLine("#" + t) == Ok(CommentLine(t))
  {
    var line := "#" + t;
    assert Trimmed(line);
    StripTrimmed(line);
    ParseLineComment(line);
  }

  lemma AssignmentRoundTrip(n: string, e: string, c: Option<string>)
    requires WellFormed(AssignmentLine(n, e, c))
    ensures ParseLine(n + " = " + e + CommentTail(e, c)) == Ok(AssignmentLine(n, e, c))
  {
    var a, b := n + " ", " " + e + CommentTail(e, c);
    SpacedEquals(n, e, CommentTail(e, c));
    NameRoundTrip(n);
    ExpressionRoundTrip(e, c);
    AssignmentAccepted(a, b);
  }

  lemma SpacedEquals(n: string, e: string, tail: string)
    ensures n + " = " + e + tail == (n + " ") + "=" + (" " + e + tail)
  {
  }

  /** An identifier followed by a space holds no '=' and strips back to the identifier. */
  lemma NameRoundTrip(n: string)
    requires IsIdentifier(n)
    ensures '=' !in n + " " && Strip(n + " ") == n
  {
    forall i | 0 <= i < |n| ensures n[i] != '=' {
      assert i == 0 || IsWordChar(n[i]);
    }
    assert [] + n + " " == n + " ";
    StripSurrounded([], n, " ");
  }

  /** What follows the '=' in Unparse strips and splits back into the expression and comment. */
  lemma ExpressionRoundTrip(e: string, c: Option<string>)
    requires Trimmed(e) && '=' !in e && '#' !in e
    requires c.Some? ==> c.value != [] && Trimmed(c.value) && '=' !in c.value
    ensures var b := " " + e + CommentTail(e, c);
      !AllSpace(b) && '=' !in b && SplitComment(Strip(b)) == (e, c)
  {
    if c == None && e != [] {
      assert " " + e + CommentTail(e, c) == " " + e;
      PlainExpression(e);
    } else {
      var t := if c.Some? then c.value else [];
      assert c == if t == [] then None else Some(t);
      CommentedExpression(e, t);
    }
  }

  lemma PlainExpression(e: string)
    requires e != [] && Trimmed(e) && '=' !in e && '#' !in e
    ensures var b := " " + e;
      !AllSpace(b) && '=' !in b && SplitComment(Strip(b)) == (e, None)
  {
    assert " " + e == " " + e + [];
    StripSurrounded(" ", e, []);
  }

  lemma CommentedExpression(e: string, t: string)
    requires Trimmed(e) && '=' !in e && '#' !in e && Trimmed(t) && '=' !in t && (e == [] || t != [])
    ensures var b := " " + e + CommentTail(e, if t == [] then None else Some(t));
      !AllSpace(b) && '=' !in b && SplitComment(Strip(b)) == (e, if t == [] then None else Some(t))
  {
    var c := if t == [] then None else Some(t);
    var b := " " + e + CommentTail(e, c);
    var y := CommentLead(e) + "#" + CommentRest(t);
    var pad := CommentedShape(e, t);
    LeadStrip(e);
    RestStrip(t);
    CommentAfter(e, t);
    StripSurrounded(pad, y, []);
    SeparatorsNotSpace();
    StripKeeps(b, '=');
  }

  /** The text after the '=' is whitespace, then the expression and comment starting at e or '#'. */
  lemma CommentedShape(e: string, t: string) returns (pad: string)
    requires e == [] || t != []
    ensures AllSpace(pad)
    ensures " " + e + CommentTail(e, if t == [] then None else Some(t)) ==
      pad + (CommentLead(e) + "#" + CommentRest(t)) + []
  {
    if e == [] && t == [] {
      pad := "  ";
      EmptyCommentShape(e);
    } else if e == [] {
      pad := "  ";
      BareCommentShape(e, t);
    } else {
      pad := " ";
      FullCommentShape(e, t);
    }
  }

  lemma EmptyCommentShape(e: string)
    requires e == []
    ensures " " + e + CommentTail(e, None) == "  " + (CommentLead(e) + "#" + CommentRest([])) + []
  {
    assert CommentTail(e, None) == " #";
    assert CommentLead(e) + "#" + CommentRest([]) == "#";
  }

  lemma BareCommentShape(e: string, t: string)
    requires e == [] && t != []
    ensures " " + e + CommentTail(e, Some(t)) == "  " + (CommentLead(e) + "#" + CommentRest(t)) + []
  {
    assert CommentTail(e, Some(t)) == " # " + t;
    assert CommentLead(e) + "#" + CommentRest(t) == "#" + (" " + t);
    assert " # " == " " + "#" + " ";
    assert "  " == " " + " ";
    GroupEmpty(" ", e, "#", t);
  }

  lemma FullCommentShape(e: string, t: string)
    requires e != [] && t != []
    ensures " " + e + CommentTail(e, Some(t)) == " " + (CommentLead(e) + "#" + CommentRest(t)) + []
  {
    assert CommentTail(e, Some(t)) == " # " + t;
    assert CommentLead(e) + "#" + CommentRest(t) == e + " " + "#" + (" " + t);
    assert " # " + t == " " + "#" + (" " + t);
    GroupAfter(" ", e, " ", "#", " " + t);
  }

  lemma GroupEmpty(s: string, e: string, h: string, t: string)
    requires e == []
    ensures s + e + (s + h + s + t) == (s + s) + (h + (s + t)) + []
  {
  }

  lemma GroupAfter(a: string, e: string, b: string, h: string, c: string)
    ensures a + e + (b + h + c) == a + ((e + b) + h + c) + []
  {
  }

  function CommentLead(e: string): string {
    if e == [] then [] else e + " "
  }

  function CommentRest(t: string): string {
    if t == [] then [] else " " + t
  }

  /** Splitting CommentLead(e) + "#" + CommentRest(t) at its '#' gives back e and t. */
  lemma CommentAfter(e: string, t: string)
    requires Trimmed(e) && '#' !in e && Trimmed(t)
    ensures var y := CommentLead(e) + "#" + CommentRest(t);
      Trimmed(y) && SplitComment(y) == (e, if t == [] then None else Some(t))
  {
    var lead, rest := CommentLead(e), CommentRest(t);
    var y := lead + "#" + rest;
    var j := |lead|;
    assert y[0] == if e == [] then '#' else e[0];
    assert y[|y| - 1] == if t == [] then '#' else t[|t| - 1];
    assert y[..j] == lead && y[j] == '#' && y[j + 1..] == rest;
    LeadStrip(e);
    RestStrip(t);
    SplitAt(y, j);
  }

  lemma LeadStrip(e: string)
    requires Trimmed(e) && '#' !in e
    ensures '=' !in e ==> '=' !in CommentLead(e)
    ensures '#' !in CommentLead(e) && Strip(CommentLead(e)) == e
  {
    if e != [] {
      assert [] + e + " " == CommentLead(e);
      StripSurrounded([], e, " ");
    }
  }

  lemma RestStrip(t: string)
    requires Trimmed(t)
    ensures '=' !in t ==> '=' !in CommentRest(t)
    ensures Strip(CommentRest(t)) == t
  {
    if t != [] {
      assert " " + t + [] == CommentRest(t);
      StripSurrounded(" ", t, []);
    }
  }

  /** SplitComment cuts at a '#' with none before it. */
  lemma SplitAt(y: string, j: nat)
    requires Trimmed(y) && j < |y| && y[j] == '#' && '#' !in y[..j]
    ensures var c := Strip(y[j + 1..]);
      SplitComment(y) == (Strip(y[..j]), if c == [] then None else Some(c))
  {
    FirstIndexAt(y, '#', j);
  }

  // ---------------------------------------------------------------------------
  // tokenize
  // ---------------------------------------------------------------------------

  datatype Op = Plus | Minus | Times | Divide

  /** The token kinds: ("NUMBER", value), ("VARIABLE", name), ("OPERATOR", op), ("LPAREN", "(")
      and ("RPAREN", ")"). */
  datatype Token =
    | Number(value: real)
    | Variable(name: string)
    | Operator(op: Op)
    | LParen
    | RParen

  /** Length of the run of decimal digits at the start of s. */
  function DigitRun(s: string): (n: nat)
    ensures n <= |s| && AllDigits(s[..n])
    ensures n < |s| ==> !IsDigit(s[n])
  {
    if s != [] && IsDigit(s[0]) then
      var k := DigitRun(s[1..]);
      assert s[..k + 1] == [s[0]] + s[1..][..k];
      k + 1
    else 0
  }

  /** Length of the run of word characters (\w) at the start of s. */
  function WordRun(s: string): (n: nat)
    ensures n <= |s|
    ensures forall i :: 0 <= i < n ==> IsWordChar(s[i])
    ensures n < |s| ==> !IsWordChar(s[n])
  {
    if s != [] && IsWordChar(s[0]) then 1 + WordRun(s[1..]) else 0
  }

  /** The suffix letters the number pattern allows: upper case only. */
  predicate IsUpperSuffix(c: char) {
    c == 'K' || c == 'M' || c == 'B'
  }

  /** Length of the match of \d+\.?\d* at the start of s, which starts with a digit. */
  function BodyLength(s: string): (k: nat)
    requires s != [] && IsDigit(s[0])
    ensures 0 < k <= |s|
  {
    var w := DigitRun(s);
    var p := if w < |s| && s[w] == '.' then w + 1 else w;
    p + DigitRun(s[p..])
  }

  /** Length of the match of \d+\.?\d*[KMB]? at the start of s, which starts with a digit. */
  function NumberLength(s: string): (n: nat)
    requires s != [] && IsDigit(s[0])
    ensures BodyLength(s) <= n <= |s| && n > 0
  {
    var k := BodyLength(s);
    if k < |s| && IsUpperSuffix(s[k]) then k + 1 else k
  }

  /** The single-character tokens. */
  function CharToken(c: char): (r: Option<Token>)
    ensures r.Some? <==> c in "+-*/()"
  {
    match c
    case '+' => Some(Operator(Plus))
    case '-' => Some(Operator(Minus))
    case '*' => Some(Operator(Times))
    case '/' => Some(Operator(Divide))
    case '(' => Some(LParen)
    case ')' => Some(RParen)
    case _ => None
  }

  /** A character some token can start with. */
  predicate StartsToken(c: char) {
    IsDigit(c) || IsLetter(c) || c == '_' || CharToken(c).Some?
  }

  /** A token tokenize can produce: numbers are never negative, names are identifiers. */
  predicate Sound(t: Token) {
    match t
    case Number(v) => v >= 0.0
    case Variable(n) => IsIdentifier(n)
    case _ => true
  }

  function Prepend(t: Token, r: Result<seq<Token>, ParseError>): Result<seq<Token>, ParseError> {
    match r
    case Ok(ts) => Ok([t] + ts)
    case Err(e) => Err(e)
  }

  /** The tokens of a text with the spaces already removed, each lexeme as the loop of tokenize
      takes it at the current position: a number, else a name, else one character. */
  function Lex(s: string): Result<seq<Token>, ParseError>
    decreases |s|, 1
  {
    if s == [] then Ok([])
    else if IsDigit(s[0]) then LexNumber(s)
    else if IsLetter(s[0]) || s[0] == '_' then LexName(s)
    else LexChar(s)
  }

  /** A number lexeme: the longest match of the number pattern, converted by parse_number. */
  function LexNumber(s: string): Result<seq<Token>, ParseError>
    requires s != [] && IsDigit(s[0])
    decreases |s|, 0
  {
    var n := NumberLength(s);
    var lexeme := s[..n];
    match ParseNumber(lexeme)
    case Err(_) => Err(InvalidNumber(lexeme))
    case Ok(v) => Prepend(Number(v), Lex(s[n..]))
  }

  /** A name lexeme: a letter or '_', then every word character that follows. */
  function LexName(s: string): Result<seq<Token>, ParseError>
    requires s != []
    decreases |s|, 0
  {
    var n := 1 + WordRun(s[1..]);
    Prepend(Variable(s[..n]), Lex(s[n..]))
  }

  /** One operator or parenthesis, or the error for a character that starts no token. */
  function LexChar(s: string): Result<seq<Token>, ParseError>
    requires s != []
    decreases |s|, 0
  {
    match CharToken(s[0])
    case None => Err(InvalidCharacter(s[0]))
    case Some(t) => Prepend(t, Lex(s[1..]))
  }

  /** Every token Lex produces is sound, and a failure names a character of s that starts no
      token. */
  lemma {:induction false} LexSound(s: string)
    ensures var r := Lex(s);
      && (r.Ok? ==> forall k :: 0 <= k < |r.value| ==> Sound(r.value[k]))
      && (r.Err? ==> r.error.InvalidCharacter? && r.error.c in s && !StartsToken(r.error.c))
    decreases |s|
  {
    if s == [] {
    } else if IsDigit(s[0]) {
      var n := NumberLength(s);
      NumberLexemeParses(s);
      var v := ParseNumber(s[..n]).value;
      LexSound(s[n..]);
      PrependSound(Number(v), s, n, Lex(s[n..]));
    } else if IsLetter(s[0]) || s[0] == '_' {
      var n := 1 + WordRun(s[1..]);
      LexSound(s[n..]);
      NameLexeme(s);
      PrependSound(Variable(s[..n]), s, n, Lex(s[n..]));
    } else if CharToken(s[0]).Some? {
      LexSound(s[1..]);
      PrependSound(CharToken(s[0]).value, s, 1, Lex(s[1..]));
    }
  }

  /** A name lexeme is an identifier. */
  lemma NameLexeme(s: string)
    requires s != [] && (IsLetter(s[0]) || s[0] == '_')
    ensures IsIdentifier(s[..1 + WordRun(s[1..])])
  {
    var n := 1 + WordRun(s[1..]);
    assert forall i :: 1 <= i < n ==> s[..n][i] == s[1..][i - 1];
  }

  /** A sound token in front of the outcome of lexing the rest of s keeps Lex's promises about s. */
  lemma PrependSound(t: Token, s: string, n: nat, r: Result<seq<Token>, ParseError>)
    requires Sound(t) && 0 < n <= |s|
    requires r.Ok? ==> forall k :: 0 <= k < |r.value| ==> Sound(r.value[k])
    requires r.Err? ==> r.error.InvalidCharacter? && r.error.c in s[n..] && !StartsToken(r.error.c)
    ensures var p := Prepend(t, r);
      && (p.Ok? ==> forall k :: 0 <= k < |p.value| ==> Sound(p.value[k]))
      && (p.Err? ==> p.error.InvalidCharacter? && p.error.c in s && !StartsToken(p.error.c))
  {
    if r.Ok? {
      assert forall k :: 0 < k < 1 + |r.value| ==> ([t] + r.value)[k] == r.value[k - 1];
    } else {
      assert s == s[..n] + s[n..];
    }
  }

  /** tokenize(expr): the tokens of expr once every space is removed. */
  function TokensOf(expr: string): Result<seq<Token>, ParseError> {
    Lex(RemoveAll(expr, ' '))
  }

  /** The digits-and-point part of a number lexeme is a trimmed decimal numeral whose value is
      not negative and whose last character is no suffix letter. */
  lemma NumeralBody(s: string) returns (v: real)
    requires s != [] && IsDigit(s[0])
    ensures var k := BodyLength(s);
      Trimmed(s[..k]) && !IsSuffix(s[k - 1]) && DecimalValue(s[..k]) == Some(v) && v >= 0.0
  {
    var w := DigitRun(s);
    if w < |s| && s[w] == '.' {
      v := PointedBody(s);
    } else {
      v := WholeBody(s);
    }
  }

  /** NumeralBody when the leading digits are followed by a point. */
  lemma PointedBody(s: string) returns (v: real)
    requires s != [] && IsDigit(s[0])
    requires DigitRun(s) < |s| && s[DigitRun(s)] == '.'
    ensures var k := BodyLength(s);
      Trimmed(s[..k]) && !IsSuffix(s[k - 1]) && DecimalValue(s[..k]) == Some(v) && v >= 0.0
  {
    var w := DigitRun(s);
    var d := DigitRun(s[w + 1..]);
    var k := BodyLength(s);
    assert k == w + 1 + d;
    var f := s[w + 1..k];
    assert f == s[w + 1..][..d];
    PrefixSnoc(s, w);
    PrefixSplit(s, w + 1, k);
    var body := s[..k];
    assert body == s[..w] + ['.'] + f;
    v := PointedValue(s[..w], f);
    assert body[k - 1] == '.' || IsDigit(body[k - 1]);
  }

  /** Digits, a point and digits make a numeral whose value is not negative. */
  lemma PointedValue(w: string, f: string) returns (v: real)
    requires w != [] && AllDigits(w) && AllDigits(f)
    ensures var body := w + ['.'] + f;
      Trimmed(body) && DecimalValue(body) == Some(v) && v >= 0.0
  {
    v := DigitsValue(w) as real + FractionValue(f);
    PointedUnsigned(w, f);
    PointedTrimmed(w, f);
    NumeralNonNegative(w, f);
  }

  lemma NumeralNonNegative(w: string, f: string)
    requires AllDigits(w) && AllDigits(f)
    ensures DigitsValue(w) as real + FractionValue(f) >= 0.0
  {
  }

  lemma PointedUnsigned(w: string, f: string)
    requires w != [] && AllDigits(w) && AllDigits(f)
    ensures DecimalValue(w + ['.'] + f) == Some(DigitsValue(w) as real + FractionValue(f))
  {
    UnsignedWithPoint(w, f);
    assert (w + ['.'] + f)[0] == w[0];
  }

  lemma PointedTrimmed(w: string, f: string)
    requires w != [] && AllDigits(w) && AllDigits(f)
    ensures Trimmed(w + ['.'] + f)
  {
    var body := w + ['.'] + f;
    assert body[0] == w[0];
    assert body[|body| - 1] == '.' || IsDigit(body[|body| - 1]);
  }

  /** NumeralBody when the leading digits are the whole body. */
  lemma WholeBody(s: string) returns (v: real)
    requires s != [] && IsDigit(s[0])
    requires !(DigitRun(s) < |s| && s[DigitRun(s)] == '.')
    ensures var k := BodyLength(s);
      Trimmed(s[..k]) && !IsSuffix(s[k - 1]) && DecimalValue(s[..k]) == Some(v) && v >= 0.0
  {
    var w := DigitRun(s);
    assert BodyLength(s) == w;
    UnsignedWhole(s[..w]);
    v := DigitsValue(s[..w]) as real;
    assert s[..w][0] == s[0];
  }

  /** parse_number accepts every lexeme the number pattern matches, with a value that is not
      negative: the "Invalid number format" branch of tokenize cannot be taken. */
  lemma NumberLexemeParses(s: string)
    requires s != [] && IsDigit(s[0])
    ensures ParseNumber(s[..NumberLength(s)]).Ok?
    ensures ParseNumber(s[..NumberLength(s)]).value >= 0.0
  {
    var v := NumeralBody(s);
    if NumberLength(s) == BodyLength(s) {
      PlainLexeme(s, v);
    } else {
      SuffixedLexeme(s, v);
    }
  }

  lemma PlainLexeme(s: string, v: real)
    requires s != [] && IsDigit(s[0]) && NumberLength(s) == BodyLength(s)
    requires var k := BodyLength(s);
      Trimmed(s[..k]) && !IsSuffix(s[k - 1]) && DecimalValue(s[..k]) == Some(v)
    ensures ParseNumber(s[..NumberLength(s)]) == Ok(v)
  {
    var n := NumberLength(s);
    assert s[..n][n - 1] == s[n - 1];
    ParsePlainNumeral(s[..n], v);
  }

  lemma SuffixedLexeme(s: string, v: real)
    requires s != [] && IsDigit(s[0]) && NumberLength(s) != BodyLength(s)
    requires var k := BodyLength(s);
      Trimmed(s[..k]) && DecimalValue(s[..k]) == Some(v)
    ensures ParseNumber(s[..NumberLength(s)]) == Ok(ApplySuffix(v, s[BodyLength(s)]))
  {
    var k := BodyLength(s);
    var n := NumberLength(s);
    assert n == k + 1 && IsUpperSuffix(s[k]);
    var body, c := s[..k], s[k];
    assert body != [] by { assert k > 0; }
    PrefixSnoc(s, k);
    ParseSuffixedNumeral(body, c, v);
  }

  /** The tokens already produced, put in front of the outcome of lexing the rest. */
  function Then(done: seq<Token>, r: Result<seq<Token>, ParseError>): Result<seq<Token>, ParseError> {
    match r
    case Ok(ts) => Ok(done + ts)
    case Err(e) => Err(e)
  }

  lemma ThenNothing(r: Result<seq<Token>, ParseError>)
    ensures Then([], r) == r
  {
    if r.Ok? {
      assert [] + r.value == r.value;
    }
  }

  lemma ThenPrepend(done: seq<Token>, t: Token, r: Result<seq<Token>, ParseError>)
    ensures Then(done, Prepend(t, r)) == Then(done + [t], r)
  {
    if r.Ok? {
      assert done + ([t] + r.value) == done + [t] + r.value;
    }
  }

  /** tokenize: removes the spaces, then walks the text with an index, taking at each position
      the longest number, else the longest name, else one operator or parenthesis. */
  method Tokenize(expr: string) returns (r: Result<seq<Token>, ParseError>)
    ensures r == TokensOf(expr)
  {
    var s := RemoveAll(expr, ' ');
    var tokens: seq<Token> := [];
    var i := 0;
    LexStart(s);
    while i < |s|
      invariant i <= |s|
      invariant Lex(s) == Then(tokens, Lex(s[i..]))
      decreases |s| - i
    {
      var step := NextLexeme(s[i..]);
      if step.Err? {
        return Err(step.error);
      }
      var (t, n) := step.value;
      LexAdvance(s, i, n, tokens, t);
      tokens := tokens + [t];
      i := i + n;
    }
    LexDone(s, i, tokens);
    return Ok(tokens);
  }

  /** Before the walk nothing is done and all of the text is left to lex. */
  lemma LexStart(s: string)
    ensures Lex(s) == Then([], Lex(s[0..]))
  {
    assert s[0..] == s;
    ThenNothing(Lex(s));
  }

  /** Once the walk reaches the end, the tokens taken are all of them. */
  lemma LexDone(s: string, i: nat, tokens: seq<Token>)
    requires i == |s| && Lex(s) == Then(tokens, Lex(s[i..]))
    ensures Lex(s) == Ok(tokens)
  {
    assert s[i..] == [];
    assert tokens + [] == tokens;
  }

  /** Taking the lexeme at position i moves its token from what is left to lex to what is done. */
  lemma LexAdvance(s: string, i: nat, n: nat, tokens: seq<Token>, t: Token)
    requires i + n <= |s| && Lex(s) == Then(tokens, Lex(s[i..]))
    requires Lex(s[i..]) == Prepend(t, Lex(s[i..][n..]))
    ensures Lex(s) == Then(tokens + [t], Lex(s[i + n..]))
  {
    assert s[i..][n..] == s[i + n..];
    ThenPrepend(tokens, t, Lex(s[i + n..]));
  }

  /** One pass of the loop of tokenize on the rest of the text: the longest number, else the
      longest name, else one operator or parenthesis, with the length taken; an error for a
      character that starts no token. */
  method NextLexeme(rest: string) returns (r: Result<(Token, nat), ParseError>)
    requires rest != []
    ensures r.Err? ==> Lex(rest) == Err(r.error)
    ensures r.Ok? ==> 0 < r.value.1 <= |rest|
    ensures r.Ok? ==> Lex(rest) == Prepend(r.value.0, Lex(rest[r.value.1..]))
  {
    if IsDigit(rest[0]) {
      var n := NumberLength(rest);
      // parse_number accepts every lexeme the pattern matches, so its except branch is dead
      LexNumberStep(rest);
      r := Ok((Number(ParseNumber(rest[..n]).value), n));
    } else if IsLetter(rest[0]) || rest[0] == '_' {
      var n := 1 + WordRun(rest[1..]);
      LexNameStep(rest);
      r := Ok((Variable(rest[..n]), n));
    } else {
      var single := CharToken(rest[0]);
      LexCharStep(rest);
      if single.None? {
        return Err(InvalidCharacter(rest[0]));
      }
      r := Ok((single.value, 1));
    }
  }

  /** The three ways Lex takes a lexeme, one lemma each. */
  lemma LexNumberStep(s: string)
    requires s != [] && IsDigit(s[0])
    ensures var n := NumberLength(s);
      ParseNumber(s[..n]).Ok? && Lex(s) == Prepend(Number(ParseNumber(s[..n]).value), Lex(s[n..]))
  {
    NumberLexemeParses(s);
  }

  lemma LexNameStep(s: string)
    requires s != [] && !IsDigit(s[0]) && (IsLetter(s[0]) || s[0] == '_')
    ensures var n := 1 + WordRun(s[1..]); Lex(s) == Prepend(Variable(s[..n]), Lex(s[n..]))
  {
  }

  lemma LexCharStep(s: string)
    requires s != [] && !IsDigit(s[0]) && !(IsLetter(s[0]) || s[0] == '_')
    ensures CharToken(s[0]).None? ==> Lex(s) == Err(InvalidCharacter(s[0]))
    ensures CharToken(s[0]).Some? ==> Lex(s) == Prepend(CharToken(s[0]).value, Lex(s[1..]))
  {
  }

  /** tokenize ignores spaces: inserting one anywhere leaves the tokens as they were. */
  lemma SpacesIgnored(a: string, b: string)
    ensures TokensOf(a + " " + b) == TokensOf(a + b)
  {
    RemoveAllConcat(a + " ", b, ' ');
    RemoveAllConcat(a, " ", ' ');
    RemoveAllConcat(a, b, ' ');
    assert RemoveAll(" ", ' ') == [];
    assert RemoveAll(a, ' ') + [] == RemoveAll(a, ' ');
  }

  /** A number lexeme is made of digits, at most one point and an upper-case suffix letter. */
  lemma LexemeChars(s: string)
    requires s != [] && IsDigit(s[0])
    ensures forall j :: 0 <= j < NumberLength(s) ==> StartsToken(s[j]) || s[j] == '.'
  {
    var w := DigitRun(s);
    var p := if w < |s| && s[w] == '.' then w + 1 else w;
    var d := DigitRun(s[p..]);
    forall j | 0 <= j < NumberLength(s) ensures StartsToken(s[j]) || s[j] == '.' {
      if j < w {
        assert s[..w][j] == s[j];
      } else if p <= j < p + d {
        assert s[p..][..d][j - p] == s[j];
      }
    }
  }

  /** A character that is neither a point nor the start of any token makes tokenize fail, wherever
      it stands: it can sit inside no number and no name. */
  lemma {:induction false} LexRejectsForeign(s: string, c: char)
    requires c in s && !StartsToken(c) && c != '.'
    ensures Lex(s).Err?
    decreases |s|
  {
    if IsDigit(s[0]) {
      var n := NumberLength(s);
      LexemeChars(s);
      assert c !in s[..n];
      assert s == s[..n] + s[n..];
      LexRejectsForeign(s[n..], c);
    } else if IsLetter(s[0]) || s[0] == '_' {
      var n := 1 + WordRun(s[1..]);
      assert forall j :: 0 <= j < n ==> IsWordChar(s[j]);
      assert c !in s[..n];
      assert s == s[..n] + s[n..];
      LexRejectsForeign(s[n..], c);
    } else if CharToken(s[0]).Some? {
      assert s == [s[0]] + s[1..];
      LexRejectsForeign(s[1..], c);
    }
  }

  /** remove-all of one character keeps every other character. */
  lemma {:induction false} RemoveAllKeeps(s: string, c: char, d: char)
    requires d != c && d in s
    ensures d in RemoveAll(s, c)
  {
    if s[0] != d {
      RemoveAllKeeps(s[1..], c, d);
    }
  }

  /** tokenize fails on any expression holding a character other than a space or a point that
      starts no token; conversely, by LexSound, a failure names such a character. */
  lemma ForeignCharRejected(expr: string, c: char)
    requires c in expr && c != ' ' && c != '.' && !StartsToken(c)
    ensures TokensOf(expr).Err?
  {
    RemoveAllKeeps(expr, ' ', c);
    LexRejectsForeign(RemoveAll(expr, ' '), c);
  }
}
