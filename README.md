# FermiApp calculator core in Dafny

FermiApp is a small "Fermi estimate" calculator. The user writes a model: one line per
statement, each of them an assignment `name = expression`, a `#` comment or a blank line.
The engine runs the lines in order against one table of variables and returns one result
per line. The display then shows every input line, and below each assignment or error it
adds a `=> ` line. Numbers may carry a K, M or B magnitude suffix (`2.7M`), and values are
written back with the same suffixes (`2.70M`).

This project is a model of that core, together with proofs about it:

- `wrappers.dfy` (module `Wrappers`): `Option` and `Result`. They stand in for Python's `None` and
  for raised exceptions.
- `text.dfy` (module `Text`): the Python string operations the core relies on, over ASCII:
  - `strip`, `lstrip` and `rstrip`;
  - `isspace` and `isidentifier`;
  - `find`;
  - `split` on one character, `join`, and `replace(" ", "")`.

  It also proves their round trips, e.g. that joining a split gives the text back.
- `formatter.dfy` (module `Formatter`): `parse_number` and `format_number` from fermi_formatter.py.
  - Numbers are reals.
  - `float()` of a plain decimal numeral is `DecimalValue`.
  - The `.0f` and `.2f` formats round half to even on the exact value.
  - Proved: what `format_number` writes and what `parse_number` reads back from it.
- `parser.dfy` (module `Parser`): `parse_line`, `tokenize` and `ParseError` from fermi_parser.py.
  - `ParseLine` is a function.
  - `Tokenize` is a method with the source's index loop. It is proved equal to the lexing
    function `Lex`, which takes, at each position:
    - the longest match of `\d+\.?\d*[KMB]?`;
    - else the longest match of `[a-zA-Z_]\w*`;
    - else one operator or parenthesis.
- `evaluator.dfy` (module `Evaluator`): the arithmetic that `_evaluate_tokens` hands to Python's
  `eval`, after every variable has been replaced by its value.
  - It is modelled as a recursive-descent parser from tokens to a tree, then an evaluation of
    the tree.
  - `*` and `/` bind tighter than `+` and `-`, and both levels associate to the left.
  - Unary signs and parentheses are supported.
  - The whole token list is parsed before anything is computed, so a malformed list is
    reported even where a division by zero stands to the left of the fault.
- `engine.dfy` (module `Engine`): the class `FermiEngine`.
  - Its field `variables : map<string, real>` stands for the instance's dictionary.
  - Methods: `EvaluateExpression`, `EvaluateTokens` (a loop that substitutes values),
    `ExecuteLine`, `ExecuteModel` and `Clear`.
  - Each method is proved against a function on the table: `EvaluateIn`, `ValueOf`, `Step` or `Run`.
  - `Step` on a line is `Perform` on its parse, which binds a name only when its expression
    has a value (`Bind`).
- `app.dfy` (module `App`): `format_results` of fermi.py, as the method `FormatResults` with the
  source's loop. It is proved equal to joining `DisplayLines` with newlines.

The model follows the code wherever the code does less than a general Fermi calculator
might be expected to:
- fermi_engine.py, fermi_parser.py and fermi_formatter.py have none of:
  - distribution ranges and their sampling;
  - percentiles;
  - `^` and `%` operators;
  - a `%` number suffix;
  - bare-expression lines;
  - an `expression` result kind.
- The tokenizer does not split on whitespace: it removes every space before lexing, so
  `1 000` is the number 1000.
- There are no separate `SyntaxError` or `NumberFormatError` kinds. The code raises
  `ParseError` (and `NameError` for an undefined variable), and `execute_line` turns each into
  an error result with the exception's message.
- A name that is no identifier is a `ParseError` with "Invalid variable name".

## Model

| member | source | states |
|---|---|---|
| Text.Strip | fermi_parser.py:44 | the result has no whitespace at either end, and it is empty exactly when the text is all whitespace |
| Text.TrimEnd | fermi_parser.py:37 | rstrip gives a prefix of the text that does not end in whitespace |
| Text.IsIdentifier | fermi_parser.py:61 | isidentifier over ASCII: nonempty, a letter or '_' first, then word characters |
| Text.FirstIndex | fermi_parser.py:50 | the index of the first occurrence, with none before it, or the length when there is none, as the split at the first '=' and '#' uses |
| Text.JoinWith | fermi.py:85 | "\n".join of the lines: the pieces with one separator between each two |
| Text.StripIgnoresSurroundingSpace | fermi_formatter.py:23 | whitespace added on either side of a text does not change what strip returns |
| Text.StripTrimEnd | fermi_parser.py:37-44 | rstrip followed by strip is strip |
| Text.SplitOn | fermi_engine.py:163 | split yields one more piece than there are separators, and no piece holds the separator |
| Text.JoinSplit | fermi.py:70-85 | joining the pieces of a split with the separator gives the text back |
| Text.SplitJoin | fermi.py:85 | splitting a join of pieces that hold no separator gives the pieces back |
| Text.RemoveAll | fermi_parser.py:113 | replace(c, "") leaves no c, and the text is shortened by exactly the number of c it held |
| Parser.RemoveAllKeeps | fermi_parser.py:113 | removing all spaces keeps every other character |
| Formatter.ParseNumber | fermi_formatter.py:23-26 | parse_number fails with the empty-string error exactly when the text is all whitespace |
| Formatter.ParseStripped | fermi_formatter.py:25-53 | after the strip: the empty-string error exactly for the empty text |
| Formatter.ParseNumberIgnoresSpace | fermi_formatter.py:23 | whitespace around the text does not change what parse_number returns |
| Formatter.ParseWithSuffix | fermi_formatter.py:36-47 | a text ending in k/K, m/M or b/B parses exactly when the stripped rest is a numeral; the value is that numeral times 1e3, 1e6 or 1e9 |
| Formatter.ParseStrippedSuffix | fermi_formatter.py:36-47 | the same after the first strip, for every stripped text with a suffix letter |
| Formatter.BareSuffixRejected | fermi_formatter.py:38-41 | a suffix letter alone is an invalid number, reported with its text |
| Formatter.ParseWholeSuffixed | fermi_formatter.py:36-45 | digits followed by a suffix letter read as the number times the suffix's magnitude |
| Formatter.ParseSuffixedNumeral | fermi_formatter.py:36-45 | a trimmed numeral followed by a suffix letter reads as its value times the magnitude |
| Formatter.ParsePlainNumeral | fermi_formatter.py:50-51 | a trimmed numeral with no suffix letter reads as its own value |
| Formatter.ParseNotNumeral | fermi_formatter.py:50-53 | a trimmed text with no suffix letter that DecimalValue rejects is an invalid number, reported with its text |
| Formatter.LetterStartNotDecimal | fermi_formatter.py:50-53 | DecimalValue, the modelled part of float(), has no value for a text that starts with a letter |
| Formatter.ParseTenthsSuffixed | fermi_formatter.py:36-45 | a digit, a point, a digit and a suffix letter read as that decimal times the magnitude |
| Formatter.TenthsValue | fermi_formatter.py:44 | float() reads a digit, a point and a digit as that decimal |
| Formatter.ParseWhole | fermi_formatter.py:50-51 | the digits of a whole number read as that number |
| Formatter.ParseMillionsExample | tests/test_formatter.py:9-10 | "2.7M" reads as 2700000 |
| Formatter.ParseThousandsExample | tests/test_formatter.py:12-13 | "10K" reads as 10000 |
| Formatter.ParseBillionsExample | tests/test_formatter.py:15-16 | "1.5B" reads as 1500000000 |
| Formatter.ParsePlainExample | tests/test_formatter.py:18-19 | "1000" reads as 1000 |
| Formatter.ParseDecimalExample | tests/test_formatter.py:21-22 | "2.5K" reads as 2500 |
| Formatter.ParseLowercaseExample | tests/test_formatter.py:24-25 | "5m" reads as 5000000 |
| Formatter.ParseSpacedExample | tests/test_formatter.py:27-28 | "  10K  " reads as 10000 |
| Formatter.FormatParseMillionsExample | tests/test_formatter.py:42-43 | "2.70M", what format_number writes for 2700000, reads back as 2700000 |
| Formatter.ParseInvalidExample | tests/test_formatter.py:30-32 | "invalid" is an invalid number |
| Formatter.DecimalValue | fermi_formatter.py:44 | float() of a numeral: an optional sign, then digits with at most one point and at least one digit; no value otherwise. Its properties are stated by UnsignedWithPoint, TenthsValue and LetterStartNotDecimal |
| Formatter.UnsignedValue | fermi_formatter.py:44 | a numeral without a sign never has a negative value |
| Formatter.UnsignedWithPoint | fermi_formatter.py:44 | digits, a point and digits denote the whole part plus the fraction |
| Formatter.DigitsValueOfNat | fermi_formatter.py:83 | the digits written for a natural number denote that number |
| Formatter.RoundHalfEven | fermi_formatter.py:75-85 | format rounding lands within half a unit, and leaves a whole value as it is |
| Formatter.Fixed0 | fermi_formatter.py:83 | .0f writes a leading '-' exactly for a negative value, and ends in a digit |
| Formatter.Fixed2 | fermi_formatter.py:85 | .2f writes a leading '-' exactly for a negative value, and ends in a digit |
| Formatter.Fixed0Shape | fermi_formatter.py:83 | .0f writes no decimal point, and only sign and digit characters |
| Formatter.Fixed2Shape | fermi_formatter.py:85 | .2f writes a decimal point, and only sign, point and digit characters |
| Formatter.DecimalOfFixed0 | fermi_formatter.py:83 | float() reads the .0f text back as the value rounded to a whole number |
| Formatter.DecimalOfFixed2 | fermi_formatter.py:85 | float() reads the .2f text back as the value rounded to hundredths |
| Formatter.SuffixLetter | fermi_formatter.py:74-79 | the suffix written from 1000 up is one of K, M, B |
| Formatter.FormatNumber | fermi_formatter.py:71-85 | format_number: two decimals and B, M or K once abs(n) reaches 1e9, 1e6 or 1e3; below 1000 no decimals once abs(n) >= 10 or n is zero, otherwise two. Its properties are stated by FormatNumberShape and FormatThenParse |
| Formatter.FormatNumberShape | fermi_formatter.py:71-85 | format_number writes '-' first exactly for negative n; it ends in B exactly when abs(n) >= 1e9, in M exactly for the range [1e6, 1e9) and in K exactly for [1e3, 1e6); it writes a point exactly when abs(n) >= 1000 or 0 < abs(n) < 10; and it uses only digits, '-', '.', K, M and B |
| Formatter.FormatThenParse | fermi_formatter.py:4-85 | parse_number reads whatever format_number writes, and the value it gives is the value shown: n in units of its suffix, rounded to the decimals written |
| Formatter.ParseFixed2Suffixed | fermi_formatter.py:36-45 | a two-decimal rendering followed by K, M or B reads as the rounded mantissa times the magnitude |
| Formatter.ShownValueNear | fermi_formatter.py:71-85 | the value shown differs from n by at most half a unit in the last place written |
| Formatter.ShownValueExact | fermi_formatter.py:71-85 | when abs(n) is a whole number of units of the last place written, the value shown is n |
| Formatter.FormatThenParseExact | fermi_formatter.py:56-85 | for such n the round trip is exact: parse_number(format_number(n)) is n |
| Formatter.FormatMillionsExample | tests/test_formatter.py:42-43 | 2700000 is written "2.70M" |
| Formatter.FormatThousandsExample | tests/test_formatter.py:45-46 | 10000 is written "10.00K" |
| Formatter.FormatPlainExample | tests/test_formatter.py:48-49 | 100 is written "100" |
| Formatter.FormatBillionsExample | tests/test_formatter.py:51-52 | 1500000000 is written "1.50B" |
| Formatter.FormatSmallExample | tests/test_formatter.py:54-56 | 2.5 is written "2.50" |
| Formatter.FormatZeroExample | tests/test_formatter.py:58-59 | 0 is written "0" |
| Formatter.FormatNegativeExample | tests/test_formatter.py:61-62 | -5000000 is written "-5.00M" |
| Parser.ErrorMessage | fermi_parser.py:52-156 | the message of each ParseError, worded as the f-strings that raise it, with the right-stripped line |
| Parser.ParseLine | fermi_parser.py:11-85 | what parse_line returns is well formed: an identifier name, and a stripped expression with no '=' or '#'; the comment, if any, is stripped and nonempty; the comment text keeps no trailing whitespace. The result is the empty line exactly for a line of whitespace |
| Parser.ParseRightStripped | fermi_parser.py:37-85 | after rstrip: empty exactly for the empty line; a comment exactly when the stripped line starts with '#', its text the rest; the invalid-syntax error exactly when the line is no comment and holds no '='; success is always well formed |
| Parser.ParseLineComment | fermi_parser.py:44-45 | a line is a comment exactly when its first non-blank character is '#', checked before any '='; its text is the rest of the stripped line |
| Parser.ParseLineWithoutEquals | fermi_parser.py:48-85 | the invalid-syntax error is returned exactly for a nonblank non-comment line without '=' |
| Parser.ParseAssignment | fermi_parser.py:48-82 | the assignment branch yields a well-formed assignment or one of its own errors, never the invalid-syntax one |
| Parser.CheckAssignment | fermi_parser.py:54-82 | the checks on the stripped name and expression yield a well-formed assignment or one of the assignment errors |
| Parser.SplitComment | fermi_parser.py:73-80 | splitting at the first '#' leaves a stripped expression without '#', and a comment only when it is nonempty and stripped; without '#' nothing changes |
| Parser.SplitCommentKeepsAbsence | fermi_parser.py:73-76 | splitting off the comment introduces no character that was not in the expression |
| Parser.EqualsSplit | fermi_parser.py:50-55 | in a + "=" + b with no '=' in a, the first '=' of the right-stripped line is the one after a, and the stripped text after it is the stripped b |
| Parser.SplitsOnFirstEquals | fermi_parser.py:48-55 | such a line, when no comment, is decided by the checks on strip(a) and strip(b) |
| Parser.MissingNameRejected | fermi_parser.py:58-59 | nothing but whitespace before the first '=' is the missing-name error |
| Parser.InvalidNameRejected | fermi_parser.py:61-62 | a name that is no identifier is rejected with that name |
| Parser.MissingExpressionRejected | fermi_parser.py:64-65 | an identifier followed by nothing but whitespace after '=' is the missing-expression error |
| Parser.SecondEqualsRejected | fermi_parser.py:68-69 | a second '=' anywhere after the first, a trailing comment included, is rejected |
| Parser.AssignmentAccepted | fermi_parser.py:71-82 | otherwise the line is the assignment of strip(a) to the stripped expression, split at its first '#' |
| Parser.UnparseParse | fermi_parser.py:11-85 | every well-formed line is what parse_line returns for its Unparse, so well-formedness describes exactly what parse_line can return |
| Parser.CommentRoundTrip | fermi_parser.py:44-45 | "#" followed by a text without trailing whitespace parses as the comment with that text |
| Parser.AssignmentRoundTrip | fermi_parser.py:48-82 | name " = " expression and comment parses back as that assignment |
| Parser.ExpressionRoundTrip | fermi_parser.py:64-80 | what follows the '=' strips and splits back into the expression and the comment |
| Parser.TokensOf | fermi_parser.py:113-158 | tokenize: Lex of the expression with every space removed; its properties are stated by Tokenize, LexSound, SpacesIgnored and ForeignCharRejected |
| Parser.Lex | fermi_parser.py:116-156 | the tokens of a space-free text: at each position a number lexeme if it starts with a digit, else a name lexeme if it starts with a letter or '_', else one character; stated by LexSound and the three step lemmas |
| Parser.LexNumber | fermi_parser.py:118-127 | the longest number match, converted by parse_number, else the invalid-number error for the lexeme; then the rest |
| Parser.LexName | fermi_parser.py:130-135 | the longest name match as a variable; then the rest |
| Parser.LexChar | fermi_parser.py:138-156 | an operator or parenthesis; then the rest, or the invalid-character error |
| Parser.DigitRun | fermi_parser.py:118 | the leading run of digits is all digits and is followed by no digit |
| Parser.WordRun | fermi_parser.py:130 | the leading run of word characters is followed by no word character |
| Parser.NumberLength | fermi_parser.py:118 | the number match is nonempty and covers at least its digits-and-point body |
| Parser.CharToken | fermi_parser.py:140-153 | exactly + - * / ( and ) are single-character tokens |
| Parser.NameLexeme | fermi_parser.py:130-135 | a name lexeme is an identifier |
| Parser.LexemeChars | fermi_parser.py:118 | a number lexeme holds only digits, a point and an upper-case suffix letter |
| Parser.NumberLexemeParses | fermi_parser.py:118-127 | parse_number accepts every lexeme the number pattern matches, with a value that is not negative, so the invalid-number branch is never taken |
| Parser.LexSound | fermi_parser.py:116-156 | every token produced is a non-negative number, an identifier, an operator or a parenthesis; a failure names a character of the text that starts no token |
| Parser.LexNumberStep | fermi_parser.py:118-125 | at a digit, the token taken is the number of the longest number match, and lexing goes on after it |
| Parser.LexNameStep | fermi_parser.py:130-135 | at a letter or '_', the token taken is the longest name, and lexing goes on after it |
| Parser.LexCharStep | fermi_parser.py:138-156 | otherwise one operator or parenthesis is taken, or the character is reported as invalid |
| Parser.NextLexeme | fermi_parser.py:117-156 | one pass of the loop: a token and a positive length within the text, after which lexing goes on; or the error lexing stops with |
| Parser.LexAdvance | fermi_parser.py:116-153 | taking a lexeme moves its token from what is left to lex to what is done |
| Parser.Tokenize | fermi_parser.py:112-158 | the index loop returns exactly the tokens, or the error, of lexing the expression with every space removed |
| Parser.SpacesIgnored | fermi_parser.py:113 | inserting a space anywhere in an expression leaves its tokens as they were |
| Parser.LexRejectsForeign | fermi_parser.py:138-156 | a character that is not a point and starts no token makes lexing fail wherever it stands |
| Parser.ForeignCharRejected | fermi_parser.py:113-156 | tokenize fails on any expression that holds such a character other than a space |
| Evaluator.Apply | fermi_engine.py:78-81 | an operation fails exactly when it is a division by zero |
| Evaluator.Eval | fermi_engine.py:78-81 | evaluating a tree can fail only by a division by zero |
| Evaluator.ParseExpr | fermi_engine.py:50-51 | an expression read from position k ends later, after a number or ')', with its parentheses balanced |
| Evaluator.ExprTail | fermi_engine.py:50-51 | the + and - pairs after the first term keep that shape |
| Evaluator.ParseTerm | fermi_engine.py:50-51 | a term keeps that shape |
| Evaluator.TermTail | fermi_engine.py:50-51 | the * and / pairs after the first factor keep that shape |
| Evaluator.ParseFactor | fermi_engine.py:50-51 | a signed factor keeps that shape |
| Evaluator.ParsePrimary | fermi_engine.py:50-51 | a number or a parenthesised expression keeps that shape |
| Evaluator.ParseTokens | fermi_engine.py:78 | a token list that is one expression is nonempty, ends with a number or ')', and has balanced parentheses |
| Evaluator.Evaluate | fermi_engine.py:78-81 | eval of the joined tokens: the value of the tree they parse to, or the malformed error when they are not one expression; stated by EvaluateParsed, BracketedReadsBack and the rejection lemmas |
| Evaluator.BinRead | fermi_engine.py:50-51 | a parenthesised operation is read as one factor once both operands are |
| Evaluator.FactorReadsBack | fermi_engine.py:50-51 | wherever the bracketed tokens of a tree stand, a factor read there is that tree, and it ends right after them |
| Evaluator.BracketedReadsBack | fermi_engine.py:74-79 | the evaluator reads the bracketed tokens of every tree back as that tree, and computes exactly its value |
| Evaluator.MultiplicativeBindsTighter | fermi_engine.py:51 | x + y * z is read x + (y * z) |
| Evaluator.MultiplicativeFirst | fermi_engine.py:51 | x * y + z is read (x * y) + z |
| Evaluator.AdditiveLeftAssociative | fermi_engine.py:51 | x - y - z is read (x - y) - z |
| Evaluator.MultiplicativeLeftAssociative | fermi_engine.py:51 | x / y / z is read (x / y) / z |
| Evaluator.ParenthesesGroup | fermi_engine.py:50-51 | (x + y) * z multiplies the sum |
| Evaluator.TwoParsed | fermi_engine.py:50-51 | x o y is read as one operation |
| Evaluator.DivisionByZeroFails | fermi_engine.py:77-81 | dividing by an operand whose value is zero fails with the division error |
| Evaluator.DanglingOperatorRejected | fermi_engine.py:77-81 | a trailing operator makes the tokens malformed |
| Evaluator.UnbalancedRejected | fermi_engine.py:77-81 | unbalanced parentheses make the tokens malformed |
| Evaluator.EvaluateParsed | fermi_engine.py:78-79 | tokens that parse have the value of their tree |
| Evaluator.SumOfProduct | tests/test_engine.py:41-43 | a + b * c evaluates to a + b*c for all numbers |
| Evaluator.ProductOfSum | tests/test_engine.py:45-47 | (a + b) * c evaluates to (a+b)*c for all numbers |
| Evaluator.Difference | tests/test_engine.py:18-20 | a - b evaluates to a-b for all numbers |
| Evaluator.Quotient | tests/test_engine.py:26-28 | a / b evaluates to a/b, or the division error when b is zero |
| Engine.Substitute | fermi_engine.py:59-72 | substitution succeeds exactly when every variable is defined, and then each token is resolved to its value; otherwise it names a variable that is undefined with every variable before it defined |
| Engine.FirstUndefined | fermi_engine.py:63-65 | the first undefined variable is the one reported |
| Engine.UndefinedVariableReported | fermi_engine.py:36-44 | an undefined variable is reported by name, the leftmost first, before any syntax error of the arithmetic |
| Engine.DefinedEvaluates | fermi_engine.py:36-81 | with every variable defined, an expression's value is what the evaluator gives for its tokens with each variable replaced by its value |
| Engine.EmptyExpressionFails | fermi_engine.py:39-40 | an expression with no tokens is the empty-expression error |
| Engine.Message | fermi_engine.py:39-81 | the "message" of each error result: the ParseError's own, "Empty expression", "Undefined variable: " and the name, or the evaluation error |
| Engine.ValueOf | fermi_engine.py:59-81 | _evaluate_tokens: the undefined-variable error of Substitute, else the evaluator's value or error for the resolved tokens |
| Engine.EvaluateIn | fermi_engine.py:36-44 | evaluate_expression: the tokenize error, the empty-expression error for no tokens, else ValueOf; stated by UndefinedVariableReported, DefinedEvaluates and EmptyExpressionFails |
| Engine.Step | fermi_engine.py:104-141 | execute_line as a function of the table: Perform on what parse_line returns; stated by StepTable and AssignmentResult |
| Engine.Perform | fermi_engine.py:107-139 | a parse error becomes an error result, empty and comment lines their results, an assignment goes to Bind; the table is passed through |
| Engine.Bind | fermi_engine.py:118-133 | an expression with a value binds the name and gives the assignment result with the comment; an error leaves the table and is the error result |
| Engine.Run | fermi_engine.py:163-170 | execute_model as a function of the table: every line stepped in order on the table the lines before it left; stated by LineOfRun, RunConcat and RunAppend |
| Engine.FermiEngine.constructor | fermi_engine.py:10-12 | a new engine has no variables |
| Engine.FermiEngine.EvaluateExpression | fermi_engine.py:36-44 | the value or error of tokenizing, refusing an empty token list, and evaluating on the current table |
| Engine.FermiEngine.EvaluateTokens | fermi_engine.py:59-81 | the loop that writes each value in place of its token, then the evaluation, give ValueOf on the current table |
| Engine.FermiEngine.ExecuteLine | fermi_engine.py:104-141 | the new table and the result are those of Step on the old table |
| Engine.FermiEngine.ExecuteModel | fermi_engine.py:163-170 | the new table and the results are those of Run over the lines split at newlines, one result per line |
| Engine.FermiEngine.Clear | fermi_engine.py:172-174 | the table is left empty |
| Engine.RunLines | fermi_engine.py:166-168 | a run gives one result per line |
| Engine.RunLinesConcat | fermi_engine.py:166-170 | a run splits at any line: the later lines run on the table the earlier ones left |
| Engine.RunConcat | fermi_engine.py:163-170 | a model's run splits in the same way |
| Engine.RunAppend | fermi_engine.py:166-170 | one more line runs on the table the earlier lines left, and its result comes last |
| Engine.LineOfRun | fermi_engine.py:166-170 | result k is what line k gives on the table the lines before it built, so an error does not stop later lines |
| Engine.StepTable | fermi_engine.py:104-141 | a line changes the table only by binding an assignment's name to its value; errors, comments and empty lines leave it as it was |
| Engine.PerformTable | fermi_engine.py:107-133 | the same for every outcome of parse_line |
| Engine.AssignmentResult | fermi_engine.py:113-133 | a successful assignment carries the parsed name and comment and the value of the expression on the old table, and the new table binds the name to that value |
| Engine.PerformAssignment | fermi_engine.py:113-133 | the same for every outcome of parse_line |
| Engine.CommentOnlyExpression | fermi_engine.py:113-121 | an assignment whose expression is nothing but a comment is the empty-expression error, and the table is kept |
| Engine.CommentOnlyParsed | fermi_parser.py:71-82 | such a line parses as an assignment with an empty expression |
| App.Annotation | fermi.py:77-83 | an assignment or an error adds exactly one line after its input line; a comment or empty line adds none |
| App.Notes | fermi.py:73-83 | one annotation per result |
| App.Interleave | fermi.py:73-83 | the output lines of the first n pairs: each input line followed by its annotation |
| App.DisplayLines | fermi.py:70-83 | the output lines before the join: Interleave over the pairs zip makes; stated by DisplayLength, DisplayOrder and DisplayPositions |
| App.NoteLinesCount | fermi.py:77-83 | the annotations of the first n results hold one line per assignment or error among them |
| App.FormatResults | fermi.py:70-85 | the loop gives exactly the display lines joined with newlines |
| App.InterleaveLength | fermi.py:73-83 | the display of n pairs has n lines plus the lines of their annotations |
| App.DisplayLength | fermi.py:70-85 | the display has one line per pair zip makes, plus one per assignment or error among them |
| App.InterleaveGrows | fermi.py:73-83 | the display of more pairs extends the display of fewer |
| App.DisplayOrder | fermi.py:73-83 | each paired input line comes right after the display of the pairs before it, followed by its annotation |
| App.DisplayPositions | fermi.py:73-83 | input line k stands at a fixed position of the display, and its annotation, if any, at the next index |
| App.ValueLine | fermi.py:79-80 | a formatted value line holds no newline |
| App.NoteSingleLine | fermi.py:77-83 | an annotation whose message holds no newline is one display line |
| App.InterleaveSingleLines | fermi.py:73-83 | display lines built from lines without newlines have none |
| App.OutputLines | fermi.py:70-85 | when no error message holds a newline, splitting the output at its newlines gives back the display lines |

## Left out

- eval on the glued text: `_evaluate_tokens` joins `str(value)` spellings and hands them to
  Python's `eval`, and some joins mean something in Python that the token grammar does not
  allow. The model calls every one of them malformed. Examples:
  - `2**3` joins to a power;
  - `7//2` is floor division;
  - a number followed by a variable whose spelling is in exponent form joins into one
    numeral, as in `2` next to `1e+20`;
  - an operand followed by a variable with a negative value joins into a subtraction, and
    Python computes a value silently: `3x` (or `3 x`) with x = -5 is joined to `3.0-5.0`,
    which eval computes as -2.0, while the model reports it malformed;
  - a number or ')' followed by '(' compiles as a call and fails only when it is reached, so
    `1/0*2(3)` is a division by zero in Python and malformed in the model.

  Any other list that is not one expression is an error in both the source and the model.
- Floating point: values are exact reals. Not modelled:
  - IEEE rounding, overflow, infinities and NaN;
  - `str(float)` spellings;
  - `format()` rounding of the binary value rather than the decimal one.
- Formatter.DecimalValue: `float()` is modelled for an optional sign, digits and at most one
  point. It leaves out exponents, underscores, `inf`/`nan` and Unicode digits. Number lexemes
  from `tokenize` never hold those.
- Text.IsSpace, Text.IsIdentifier, Parser.DigitRun, Parser.WordRun: ASCII only. Python's
  `isspace`, `isidentifier`, `\d` and `\w` also accept Unicode characters.
- Engine.Message: the text of an evaluation error is fixed ("invalid syntax", "float division
  by zero"). Python's message text for the exception is not reproduced.
- fermi_parser.py:51-52: the `len(parts) != 2` branch cannot be taken once the line holds '=',
  so it has no counterpart.
- fermi_engine.py:135-136 and fermi_engine.py:140-141: the "Unknown line type" and "Unexpected
  error" branches are not modelled.
  - parse_line returns only the three line kinds.
  - `_evaluate_tokens` turns every eval failure into a ParseError.
- fermi_parser.py:126-127: the "Invalid number format" branch of tokenize is modelled in
  `LexNumber`, and `NumberLexemeParses` proves it cannot be taken.
- The FermiApp user interface in fermi.py (compose, the button handler, the output widget,
  main) is not modelled: it is I/O. `format_results` uses no state of the app, so
  `FormatResults` is a module-level method.
- The engine examples with literal numbers (`10 + 20 * 2`, `(10 + 20) * 2`, `20 - 5`, `20 / 4`)
  are stated for all numbers a, b, c over the evaluator's tokens.
- Formatter.FormatThenParse: the value read back is the value shown, which is n rounded to the
  decimals written, not n itself. FormatThenParseExact gives n back when nothing is rounded away.
