# Calculator protocol server — Dafny model

This project models the request path of a single-connection calculator
server. The server greets a client with `WELCOME 12+12| +-/*^`. It then reads
request lines and splits each on `|`:

- `CALCULATION|<expression>` is answered with `RESULT|<int>` or
  `ERROR|<kind>`;
- `END` closes the session;
- anything else is answered with `Please enter an instruction.`

Expressions are evaluated the way `calculate` does it:

- operand tokens come from `split("[^0-9\\\\.]")`, the class of every character but a digit, `.` and `\`;
- operator tokens are the non-empty pieces of `split("[0-9]")`;
- every operand token goes through `Integer.parseInt`;
- the first two operands and the first operator token decide the result;
- arithmetic is Java `int` arithmetic.

Modules:

- `Optional`: the option type.
- `JavaInt`: 32-bit `int` behaviour.
  - `+` and `*` wrap modulo 2^32.
  - `/` truncates toward zero.
  - `(int) Math.pow` saturates at `Integer.MAX_VALUE`.
- `JavaDecimal`: `Integer.parseInt` and the decimal text of an `int`.
- `JavaSplit`: `String.split` for the three one-character patterns the server
  uses. Every match cuts; trailing empty pieces are dropped; a string without
  a match is its own single piece.
- `Calculator`: the `Operation` enum, `getOperations`,
  `getNumbersFromString` and `calculate`.
- `Session`: per-line dispatch, the text of every reply, and a whole session
  over a finite sequence of request lines.

In the text below, `Server.java` stands for
`code/dariovas_emariaux/Server/src/main/java/ch/heig/dai/lab/protocoldesign/Server.java`;
the table uses the full path.

The protocol's greeting and reply grammar suggest exactly two operands, one
operator, and an error reply for any bad request. The model follows the code
wherever it departs from that reading:

- The code accepts more than two operand tokens. All of them must parse, and
  only the first two are used, so `5+3+4` is 8.
- Operand tokens can contain `\` as well as `.`, because the character class
  excludes both. Such a token fails `parseInt` (`NUMBER_NOT_VALID`).
- Fewer than two operands, or no operator token, raises an
  index-out-of-bounds fault. That fault happens inside the `try` at lines
  56-60, so it is caught and answered with `ERROR|` followed by the
  runtime's message. The model calls this error `Malformed`.
- The session does not always survive client input (see Findings).

## Model

| member | source | states |
|---|---|---|
| Calculator.Operations | code/dariovas_emariaux/Server/src/main/java/ch/heig/dai/lab/protocoldesign/Server.java:15-26 | the five labels concatenated in declaration order spell `+-/*^` |
| Calculator.GetOperations | code/dariovas_emariaux/Server/src/main/java/ch/heig/dai/lab/protocoldesign/Server.java:82-90 | the builder loop yields the advertised operator list, one character per operation, each label at its own declaration index |
| Calculator.OpOfLabel | code/dariovas_emariaux/Server/src/main/java/ch/heig/dai/lab/protocoldesign/Server.java:128-144 | a token resolves to an operation exactly when it equals that operation's label; otherwise no operation |
| Calculator.ParseAll | code/dariovas_emariaux/Server/src/main/java/ch/heig/dai/lab/protocoldesign/Server.java:98-109 | the conversion succeeds iff every token parses, and then yields each token's value at its own index |
| Calculator.ErrorName | code/dariovas_emariaux/Server/src/main/java/ch/heig/dai/lab/protocoldesign/Server.java:105-143 | each exception message the calculator raises is non-empty and holds no `|` and no newline, so an `ERROR|` reply stays one line of two fields |
| Calculator.ErrorNamesDistinct | code/dariovas_emariaux/Server/src/main/java/ch/heig/dai/lab/protocoldesign/Server.java:105-143 | two exceptions carry the same message iff they are the same kind |
| Calculator.Apply | code/dariovas_emariaux/Server/src/main/java/ch/heig/dai/lab/protocoldesign/Server.java:128-144 | results are 32-bit ints; the only failure is division by zero, reported as `CANNOT_DIVIDE_BY_0` |
| Calculator.Calculate | code/dariovas_emariaux/Server/src/main/java/ch/heig/dai/lab/protocoldesign/Server.java:116-145 | every value `calculate` returns is a 32-bit int |
| Calculator.OperandTokens | code/dariovas_emariaux/Server/src/main/java/ch/heig/dai/lab/protocoldesign/Server.java:118 | no operand token holds a character other than a digit, `.` or `\`; there is no token at all iff the expression is non-empty and has none of those characters |
| Calculator.OperatorTokens | code/dariovas_emariaux/Server/src/main/java/ch/heig/dai/lab/protocoldesign/Server.java:120-122 | a string is an operator token iff it is a non-empty token of the split at every digit; no operator token holds a digit |
| Calculator.OperandTokenParse | code/dariovas_emariaux/Server/src/main/java/ch/heig/dai/lab/protocoldesign/Server.java:102-105 | an operand token fails `parseInt` exactly when it is empty, holds `.` or `\`, or exceeds `Integer.MAX_VALUE`; otherwise its value is its decimal value (never negative) |
| Calculator.ParseAllOperands | code/dariovas_emariaux/Server/src/main/java/ch/heig/dai/lab/protocoldesign/Server.java:118 | the operand conversion succeeds iff every operand token is a valid operand, and then gives each one's decimal value |
| Calculator.CalculateNumberNotValid | code/dariovas_emariaux/Server/src/main/java/ch/heig/dai/lab/protocoldesign/Server.java:104-105 | `NUMBER_NOT_VALID` iff some operand token is invalid, whatever the operator |
| Calculator.CalculateMalformed | code/dariovas_emariaux/Server/src/main/java/ch/heig/dai/lab/protocoldesign/Server.java:124-126 | the index fault iff all operand tokens are valid but there are fewer than two; with two valid operands an operator token always exists |
| Calculator.OperandLayout | code/dariovas_emariaux/Server/src/main/java/ch/heig/dai/lab/protocoldesign/Server.java:118 | with well-formed operands the expression is the first operand, one separator character, then text beginning with the second operand |
| Calculator.OperatorIsSeparator | code/dariovas_emariaux/Server/src/main/java/ch/heig/dai/lab/protocoldesign/Server.java:120-126 | with well-formed operands the first operator token is exactly the single character between the first two operands |
| Calculator.CalculateShape | code/dariovas_emariaux/Server/src/main/java/ch/heig/dai/lab/protocoldesign/Server.java:124-144 | with well-formed operands the result depends only on the first two operand values and the separator between them |
| Calculator.CalculateByLabel | code/dariovas_emariaux/Server/src/main/java/ch/heig/dai/lab/protocoldesign/Server.java:128-141 | a separator equal to an operation's label applies that operation to the first two operands |
| Calculator.CalculateOperationNotValid | code/dariovas_emariaux/Server/src/main/java/ch/heig/dai/lab/protocoldesign/Server.java:142-143 | with well-formed operands, `OPERATION_NOT_VALID` iff the separator is none of `+-/*^` |
| Calculator.CalculateDivision | code/dariovas_emariaux/Server/src/main/java/ch/heig/dai/lab/protocoldesign/Server.java:133-137 | `/` with a zero second operand gives `CANNOT_DIVIDE_BY_0`; otherwise the truncated quotient |
| Calculator.CalculateArithmetic | code/dariovas_emariaux/Server/src/main/java/ch/heig/dai/lab/protocoldesign/Server.java:128-141 | `+` and `*` give Java's wrapping sum and product, `-` the exact difference, `^` the power saturated at `Integer.MAX_VALUE` |
| Calculator.CalculateTwoOperands | code/dariovas_emariaux/Server/src/main/java/ch/heig/dai/lab/protocoldesign/Server.java:116-145 | `a c b` with valid operands splits into exactly `a` and `b` and evaluates the operation `c` names, or `OPERATION_NOT_VALID` |
| Calculator.ThreeOperandTokens | code/dariovas_emariaux/Server/src/main/java/ch/heig/dai/lab/protocoldesign/Server.java:118 | three valid operands joined by two separators give exactly three operand tokens |
| Calculator.ExampleSum | code/dariovas_emariaux/Server/src/main/java/ch/heig/dai/lab/protocoldesign/Server.java:128-129 | `5+3` is 8 |
| Calculator.ExampleGreetingSample | code/dariovas_emariaux/Server/src/main/java/ch/heig/dai/lab/protocoldesign/Server.java:47 | the greeting's sample `12+12` is 24 |
| Calculator.ExampleQuotient | code/dariovas_emariaux/Server/src/main/java/ch/heig/dai/lab/protocoldesign/Server.java:133-135 | `9/2` is 4 |
| Calculator.ExampleDivideByZero | code/dariovas_emariaux/Server/src/main/java/ch/heig/dai/lab/protocoldesign/Server.java:134-136 | `9/0` is `CANNOT_DIVIDE_BY_0` |
| Calculator.ExamplePower | code/dariovas_emariaux/Server/src/main/java/ch/heig/dai/lab/protocoldesign/Server.java:140-141 | `2^3` is 8 |
| Calculator.ExampleUnknownOperator | code/dariovas_emariaux/Server/src/main/java/ch/heig/dai/lab/protocoldesign/Server.java:142-143 | `5&5` is `OPERATION_NOT_VALID` |
| Calculator.ExampleLeadingMinus | code/dariovas_emariaux/Server/src/main/java/ch/heig/dai/lab/protocoldesign/Server.java:118 | `-5+3` is `NUMBER_NOT_VALID`: a leading `-` leaves an empty first operand token |
| Calculator.ExampleEmptyExpression | code/dariovas_emariaux/Server/src/main/java/ch/heig/dai/lab/protocoldesign/Server.java:118 | the empty expression is `NUMBER_NOT_VALID` |
| Calculator.ExampleExtraOperands | code/dariovas_emariaux/Server/src/main/java/ch/heig/dai/lab/protocoldesign/Server.java:124-129 | `5+3+4` is 8: operands beyond the second are ignored |
| Calculator.TrailingSeparatorTokens | code/dariovas_emariaux/Server/src/main/java/ch/heig/dai/lab/protocoldesign/Server.java:118 | two valid operands and a trailing separator still give exactly two operand tokens |
| Calculator.ExampleTrailingOperator | code/dariovas_emariaux/Server/src/main/java/ch/heig/dai/lab/protocoldesign/Server.java:118-129 | `5+3+` is 8: the trailing empty token is dropped |
| Calculator.ExampleDoubledSeparator | code/dariovas_emariaux/Server/src/main/java/ch/heig/dai/lab/protocoldesign/Server.java:102-118 | `5++3` is `NUMBER_NOT_VALID`: the doubled separator leaves an empty operand token |
| JavaInt.Wrap | code/dariovas_emariaux/Server/src/main/java/ch/heig/dai/lab/protocoldesign/Server.java:129 | the result is a 32-bit int congruent to the input modulo 2^32, and equal to it when it is already in range |
| JavaInt.WrapUnique | code/dariovas_emariaux/Server/src/main/java/ch/heig/dai/lab/protocoldesign/Server.java:129 | the wrapped value is the only 32-bit int congruent to the input |
| JavaInt.Add | code/dariovas_emariaux/Server/src/main/java/ch/heig/dai/lab/protocoldesign/Server.java:129 | `int` addition: the exact sum when in range, otherwise the sum shifted by 2^32 |
| JavaInt.Sub | code/dariovas_emariaux/Server/src/main/java/ch/heig/dai/lab/protocoldesign/Server.java:131 | `int` subtraction: the exact difference when in range, otherwise shifted by 2^32 |
| JavaInt.SubOfNaturalsExact | code/dariovas_emariaux/Server/src/main/java/ch/heig/dai/lab/protocoldesign/Server.java:131 | subtracting two non-negative ints never overflows |
| JavaInt.Mul | code/dariovas_emariaux/Server/src/main/java/ch/heig/dai/lab/protocoldesign/Server.java:139 | `int` multiplication: a 32-bit int congruent to the exact product modulo 2^32 |
| JavaInt.Quotient | code/dariovas_emariaux/Server/src/main/java/ch/heig/dai/lab/protocoldesign/Server.java:135 | the quotient `q` of naturals satisfies `q*y <= x < q*y + y`: the most whole divisors that fit in the dividend |
| JavaInt.Div | code/dariovas_emariaux/Server/src/main/java/ch/heig/dai/lab/protocoldesign/Server.java:135 | `int` division: the magnitude is the quotient of the magnitudes (truncation toward zero), the sign is negative only for operands of opposite signs, and `MIN_VALUE / -1` wraps to `MIN_VALUE` |
| JavaInt.DivOfNaturals | code/dariovas_emariaux/Server/src/main/java/ch/heig/dai/lab/protocoldesign/Server.java:133-135 | on the non-negative operands the calculator sees, `int` division is the mathematical quotient |
| JavaInt.PowClamped | code/dariovas_emariaux/Server/src/main/java/ch/heig/dai/lab/protocoldesign/Server.java:141 | `(int) Math.pow` on non-negative ints: the exact power when it fits, `Integer.MAX_VALUE` when it does not |
| JavaDecimal.ParseInt | code/dariovas_emariaux/Server/src/main/java/ch/heig/dai/lab/protocoldesign/Server.java:102 | `Integer.parseInt`: only in-range values parse, and only non-empty text does; unsigned text never gives a negative value |
| JavaDecimal.ParseUnsigned | code/dariovas_emariaux/Server/src/main/java/ch/heig/dai/lab/protocoldesign/Server.java:102 | unsigned text parses iff it is a non-empty run of digits worth at most `Integer.MAX_VALUE`, and then to that value |
| JavaDecimal.FormatNat | code/dariovas_emariaux/Server/src/main/java/ch/heig/dai/lab/protocoldesign/Server.java:57 | the decimal text of a natural number is non-empty, all digits, without a leading zero, and reads back as that number |
| JavaDecimal.FormatInt | code/dariovas_emariaux/Server/src/main/java/ch/heig/dai/lab/protocoldesign/Server.java:57 | the decimal text of an `int` is non-empty, starts with `-` iff the value is negative, and after any sign is the canonical run of digits worth the magnitude, with no leading zero |
| JavaDecimal.FormatParseRoundTrip | code/dariovas_emariaux/Server/src/main/java/ch/heig/dai/lab/protocoldesign/Server.java:57 | `Integer.parseInt` of an `int`'s decimal text gives the `int` back |
| JavaSplit.Separators | code/dariovas_emariaux/Server/src/main/java/ch/heig/dai/lab/protocoldesign/Server.java:53 | the matched characters, in order, are no more than the input and all match the pattern |
| JavaSplit.Pieces | code/dariovas_emariaux/Server/src/main/java/ch/heig/dai/lab/protocoldesign/Server.java:53 | one more piece than matches, no piece holds a match, and the first piece is the text before the first match |
| JavaSplit.PiecesJoin | code/dariovas_emariaux/Server/src/main/java/ch/heig/dai/lab/protocoldesign/Server.java:53 | joining the pieces with the matched characters rebuilds the input |
| JavaSplit.DropTrailingEmpty | code/dariovas_emariaux/Server/src/main/java/ch/heig/dai/lab/protocoldesign/Server.java:53 | a prefix of the pieces that drops only empty pieces and does not end with one |
| JavaSplit.Split | code/dariovas_emariaux/Server/src/main/java/ch/heig/dai/lab/protocoldesign/Server.java:53 | no token of `split` holds a match |
| JavaSplit.SplitOfEmpty | code/dariovas_emariaux/Server/src/main/java/ch/heig/dai/lab/protocoldesign/Server.java:53 | the empty string splits into one empty token |
| JavaSplit.SplitEmptyIff | code/dariovas_emariaux/Server/src/main/java/ch/heig/dai/lab/protocoldesign/Server.java:53 | `split` gives no token iff the input is non-empty and made only of matches |
| JavaSplit.SplitNoTrailingEmpty | code/dariovas_emariaux/Server/src/main/java/ch/heig/dai/lab/protocoldesign/Server.java:53 | on a non-empty input the last token, if any, is never empty |
| JavaSplit.SplitLeadingEmpty | code/dariovas_emariaux/Server/src/main/java/ch/heig/dai/lab/protocoldesign/Server.java:118 | a match at the start, with a non-match later, gives an empty first token |
| JavaSplit.SplitFirst | code/dariovas_emariaux/Server/src/main/java/ch/heig/dai/lab/protocoldesign/Server.java:53-55 | when there is a token, the first is the text before the first match |
| JavaSplit.SplitHead | code/dariovas_emariaux/Server/src/main/java/ch/heig/dai/lab/protocoldesign/Server.java:55-61 | a non-empty match-free word is the first token iff the input is that word, or that word followed by a match |
| JavaSplit.SplitSecond | code/dariovas_emariaux/Server/src/main/java/ch/heig/dai/lab/protocoldesign/Server.java:124-125 | with two or more tokens, the first is the text before the first match and the second is the text between the first match and the next one |
| JavaSplit.PiecesNotAllEmpty | code/dariovas_emariaux/Server/src/main/java/ch/heig/dai/lab/protocoldesign/Server.java:53 | a string holding a non-matching character has a non-empty piece |
| JavaSplit.SplitFirstTwo | code/dariovas_emariaux/Server/src/main/java/ch/heig/dai/lab/protocoldesign/Server.java:53 | a match-free `x`, a match, a match-free `e`, then nothing or a match: the first two tokens are `x` and `e`, provided `e` is non-empty or a non-matching character follows |
| JavaSplit.NonEmpty | code/dariovas_emariaux/Server/src/main/java/ch/heig/dai/lab/protocoldesign/Server.java:122 | the filter keeps no empty token and never lengthens the list |
| JavaSplit.NonEmptyMembers | code/dariovas_emariaux/Server/src/main/java/ch/heig/dai/lab/protocoldesign/Server.java:122 | a string survives the filter iff it is a non-empty member of the input |
| JavaSplit.FirstNonEmptyToken | code/dariovas_emariaux/Server/src/main/java/ch/heig/dai/lab/protocoldesign/Server.java:120-126 | after digits, one non-digit followed by a digit is the first non-empty operator token |
| Session.GreetingText | code/dariovas_emariaux/Server/src/main/java/ch/heig/dai/lab/protocoldesign/Server.java:47 | the greeting is `WELCOME 12+12| +-/*^` and a newline |
| Session.ReplyText | code/dariovas_emariaux/Server/src/main/java/ch/heig/dai/lab/protocoldesign/Server.java:59-66 | the prompt is `Please enter an instruction.` and the `ERROR` lines are `ERROR|NUMBER_NOT_VALID`, `ERROR|CANNOT_DIVIDE_BY_0` and `ERROR|OPERATION_NOT_VALID`, each with a newline |
| Session.Greeting | code/dariovas_emariaux/Server/src/main/java/ch/heig/dai/lab/protocoldesign/Server.java:47 | the greeting advertises the operators `+-/*^` |
| Session.Render | code/dariovas_emariaux/Server/src/main/java/ch/heig/dai/lab/protocoldesign/Server.java:57-66 | every line written ends with a newline |
| Session.Fields | code/dariovas_emariaux/Server/src/main/java/ch/heig/dai/lab/protocoldesign/Server.java:53 | no field of a request line holds `|` |
| Session.ResultLineRoundTrip | code/dariovas_emariaux/Server/src/main/java/ch/heig/dai/lab/protocoldesign/Server.java:57 | a `RESULT|` line carries the value so that parsing the text after `RESULT|` gives it back |
| Session.FieldsShape | code/dariovas_emariaux/Server/src/main/java/ch/heig/dai/lab/protocoldesign/Server.java:53-55 | a line has no field iff it is non-empty and only `|`; otherwise its first field is the text before the first `|` |
| Session.Answer | code/dariovas_emariaux/Server/src/main/java/ch/heig/dai/lab/protocoldesign/Server.java:56-60 | a successful evaluation is answered with a `RESULT` line carrying its value, a failed one with an `ERROR` line carrying its kind |
| Session.Dispatch | code/dariovas_emariaux/Server/src/main/java/ch/heig/dai/lab/protocoldesign/Server.java:52-67 | one request line as written never makes the server greet again |
| Session.DispatchAbortIff | code/dariovas_emariaux/Server/src/main/java/ch/heig/dai/lab/protocoldesign/Server.java:53-55 | the as-written loop faults, uncaught, exactly on a non-empty line made only of `|` |
| Session.DispatchGuarded | code/dariovas_emariaux/Server/src/main/java/ch/heig/dai/lab/protocoldesign/Server.java:52-67 | the corrected turn never faults and never greets |
| Session.DispatchGuardedAgrees | code/dariovas_emariaux/Server/src/main/java/ch/heig/dai/lab/protocoldesign/Server.java:52-67 | the corrected turn agrees with the original on every line the original survives, and prompts on the rest |
| Session.CalculationFields | code/dariovas_emariaux/Server/src/main/java/ch/heig/dai/lab/protocoldesign/Server.java:53-57 | the fields of `CALCULATION|e` and further fields start with the tag and `e`, provided `e` or some later field is non-empty |
| Session.DispatchStopIff | code/dariovas_emariaux/Server/src/main/java/ch/heig/dai/lab/protocoldesign/Server.java:61-64 | the session ends iff the line is `END` or starts with `END|` |
| Session.DispatchCalculation | code/dariovas_emariaux/Server/src/main/java/ch/heig/dai/lab/protocoldesign/Server.java:55-60 | `CALCULATION|e`, with `e` free of `|`, is answered with the evaluation of `e` whenever the line has a second field, that is when `e` is non-empty or a later field is; later fields are ignored |
| Session.DispatchMissingExpression | code/dariovas_emariaux/Server/src/main/java/ch/heig/dai/lab/protocoldesign/Server.java:55-59 | `CALCULATION` followed only by `|`s is answered with the index-fault error |
| Session.DispatchPromptIff | code/dariovas_emariaux/Server/src/main/java/ch/heig/dai/lab/protocoldesign/Server.java:65-66 | the prompt iff the line has a field and its first field is neither `CALCULATION` nor `END` |
| Session.Serve | code/dariovas_emariaux/Server/src/main/java/ch/heig/dai/lab/protocoldesign/Server.java:50-69 | each line read gets exactly one reply, in order; an open session read every line; a closed or crashed one stopped on an `END` or faulting line |
| Session.ServeIgnoresLaterLines | code/dariovas_emariaux/Server/src/main/java/ch/heig/dai/lab/protocoldesign/Server.java:61-64 | once the loop has stopped, later input changes nothing |
| Session.ServeRepliesThenStop | code/dariovas_emariaux/Server/src/main/java/ch/heig/dai/lab/protocoldesign/Server.java:50-69 | two replying lines then a stopping line give those two replies and a closed session, whatever follows |
| Session.ServeFourLines | code/dariovas_emariaux/Server/src/main/java/ch/heig/dai/lab/protocoldesign/Server.java:50-69 | of four lines, two replying lines then a stopping one give those two replies and a closed session; the fourth is never read |
| Session.ServeNeverGreets | code/dariovas_emariaux/Server/src/main/java/ch/heig/dai/lab/protocoldesign/Server.java:50-69 | when no request line can draw a greeting, the loop adds no greeting after what was already written |
| Session.ServeAgrees | code/dariovas_emariaux/Server/src/main/java/ch/heig/dai/lab/protocoldesign/Server.java:50-69 | two loops whose turns agree on every line write the same transcript |
| Session.RunAsWritten | code/dariovas_emariaux/Server/src/main/java/ch/heig/dai/lab/protocoldesign/Server.java:47-69 | a session of the server as written begins with the greeting |
| Session.RunGuarded | code/dariovas_emariaux/Server/src/main/java/ch/heig/dai/lab/protocoldesign/Server.java:47-69 | a session of the corrected server begins with the greeting and never crashes |
| Session.RunGreetsOnce | code/dariovas_emariaux/Server/src/main/java/ch/heig/dai/lab/protocoldesign/Server.java:47-69 | in the session as written and in the corrected one, the greeting is written first and never again |
| Session.RunNeverCrashes | code/dariovas_emariaux/Server/src/main/java/ch/heig/dai/lab/protocoldesign/Server.java:50-69 | the corrected session never crashes; the session as written crashes only if some request line is made only of `|` |
| Session.RunAgrees | code/dariovas_emariaux/Server/src/main/java/ch/heig/dai/lab/protocoldesign/Server.java:53-69 | when no line is made only of `|`, the corrected session writes exactly what the session as written writes |
| Session.BarOnlyLine | code/dariovas_emariaux/Server/src/main/java/ch/heig/dai/lab/protocoldesign/Server.java:53-55 | the line `|` crashes the server as written; in the corrected session it gets the prompt and the session stays open |
| Session.ExampleCalculationRequest | code/dariovas_emariaux/Server/src/main/java/ch/heig/dai/lab/protocoldesign/Server.java:55-57 | `CALCULATION|5+3` is answered with `RESULT|8` |
| Session.ExampleEndRequest | code/dariovas_emariaux/Server/src/main/java/ch/heig/dai/lab/protocoldesign/Server.java:61-64 | `END` ends the session |
| Session.ExampleUnknownRequest | code/dariovas_emariaux/Server/src/main/java/ch/heig/dai/lab/protocoldesign/Server.java:65-66 | `PING` is answered with the prompt |
| Session.ExampleEmptyRequest | code/dariovas_emariaux/Server/src/main/java/ch/heig/dai/lab/protocoldesign/Server.java:65-66 | the empty line is answered with the prompt |
| Session.ExampleMissingExpression | code/dariovas_emariaux/Server/src/main/java/ch/heig/dai/lab/protocoldesign/Server.java:55-59 | `CALCULATION|` has one field and is answered with the index-fault error |
| Session.ExampleEmptyExpressionField | code/dariovas_emariaux/Server/src/main/java/ch/heig/dai/lab/protocoldesign/Server.java:53-59 | `CALCULATION||5` evaluates the empty expression and is answered with `NUMBER_NOT_VALID` |
| Session.ExampleSession | code/dariovas_emariaux/Server/src/main/java/ch/heig/dai/lab/protocoldesign/Server.java:47-69 | as written: greeting, `RESULT|8`, prompt, then `END` closes the session; the line after `END` is never read |
| Session.ExampleSessionGuarded | code/dariovas_emariaux/Server/src/main/java/ch/heig/dai/lab/protocoldesign/Server.java:47-69 | the corrected server writes the same session: greeting, `RESULT|8`, prompt, then closed at `END` |

## Left out

- Sockets, streams, `flush`, the listening port and console logging are left
  out. The session is a function from a finite sequence of request lines to
  the messages written and how the session ended.
- A client disconnect is left out. There, `readLine` returns `null` and the
  next `split` faults. A session whose input runs out is simply `Open`.
- I/O exceptions are left out: the transport is not modelled.
- The message text of the runtime's index-out-of-bounds fault is left out.
  `Session.Render` takes it as a parameter.
- JavaInt.PowClamped: does not compute `Math.pow` in floating point. It
  relies on two facts: Java's `Math.pow` is exact when both arguments are
  integers and the result is representable, and the `(int)` cast saturates.
  Together these give exactly the clamped power, with operands that are never
  negative. The model states this and does not derive it from IEEE 754.
- Non-ASCII digits accepted by `Integer.parseInt` are left out. Operand
  tokens come from a split that cuts at every character other than `0-9`,
  `.` and `\`, so such digits never reach `parseInt`. Characters are Dafny
  `char`, with no UTF-8 decoding or surrogate pairs.
- `String.split` is modelled only for the three single-character patterns
  the server uses, not for general regular expressions.

## Findings

| source | as written | input that shows it | evidently intended | confidence | as-written member | corrected member |
|---|---|---|---|---|---|---|
| code/dariovas_emariaux/Server/src/main/java/ch/heig/dai/lab/protocoldesign/Server.java:53-55 | `msg.split("\\|")` of a line made only of `|` has no element, so `msgParts[0]` faults outside the `try` and the server terminates | the request line `|` | such a line is an unrecognised instruction, answered with the prompt, and the session goes on | high, not executed | Session.Dispatch (Session.DispatchAbortIff, Session.RunAsWritten, Session.BarOnlyLine) | Session.DispatchGuarded (Session.DispatchGuardedAgrees, Session.RunGuarded, Session.RunNeverCrashes) |
