/**
 The calculator behind a `CALCULATION` request: the table of operations and
 the evaluation of an expression such as `12+12`.

 Operand tokens are what remains after cutting the expression at every
 character other than a digit, '.' or '\'; operator tokens are the non-empty
 runs left after cutting at every digit. All operand tokens must parse as
 Java ints; then the first two operands and the first operator token decide
 the result, in Java `int` arithmetic.
 */
module Calculator {

  import opened Optional
  import JavaInt
  import JavaDecimal
  import JavaSplit

  /** The supported operations, in declaration order. */
  datatype Op = Add | Sub | Div | Mult | Pow

  const AllOps: seq<Op> := [Add, Sub, Div, Mult, Pow]

  /** The one-character symbol each operation is written with. */
  function Label(op: Op): (r: string)
    ensures |r| == 1
  {
    match op
    case Add => "+"
    case Sub => "-"
    case Div => "/"
    case Mult => "*"
    case Pow => "^"
  }

  /** The labels of `ops`, concatenated in order. */
  function Labels(ops: seq<Op>): string
  {
    if |ops| == 0 then "" else Labels(ops[..|ops| - 1]) + Label(ops[|ops| - 1])
  }

  /** The operator list advertised in the greeting. */
  function Operations(): (r: string)
    ensures r == "+-/*^"
  {
    var a := AllOps;
    assert a[..1][..0] == [] && Labels(a[..1]) == "+";
    assert a[..2][..1] == a[..1] && Labels(a[..2]) == "+-";
    assert a[..3][..2] == a[..2] && Labels(a[..3]) == "+-/";
    assert a[..4][..3] == a[..3] && Labels(a[..4]) == "+-/*";
    assert a[..4] == a[..|a| - 1];
    Labels(a)
  }

  /** `getOperations()`: appends every label, in declaration order. Each
      operation's label sits at its own declaration index. */
  method GetOperations() returns (ops: string)
    ensures ops == Operations()
    ensures |ops| == |AllOps|
    ensures forall i :: 0 <= i < |AllOps| ==> ops[i..i + 1] == Label(AllOps[i])
  {
    ops := "";
    for i := 0 to |AllOps|
      invariant ops == Labels(AllOps[..i])
    {
      assert AllOps[..i + 1][..i] == AllOps[..i];
      ops := ops + Label(AllOps[i]);
    }
    assert AllOps[..|AllOps|] == AllOps;
  }

  /** Resolves an operator token by comparing it with each label in
      declaration order. */
  function OpOfLabel(token: string): (r: Option<Op>)
    ensures r.Some? ==> Label(r.value) == token
    ensures forall op :: Label(op) == token ==> r == Some(op)
  {
    if token == Label(Add) then Some(Add)
    else if token == Label(Sub) then Some(Sub)
    else if token == Label(Div) then Some(Div)
    else if token == Label(Mult) then Some(Mult)
    else if token == Label(Pow) then Some(Pow)
    else None
  }

  /** Why an expression has no value. `Malformed` stands for the index fault
      raised when there are fewer than two operands or no operator. */
  datatype EvalError = NumberNotValid | CannotDivideByZero | OperationNotValid | Malformed

  /** The message text an error carries on the wire; the index fault's text
      comes from the runtime and is not modelled. */
  function ErrorName(e: EvalError): (r: string)
    requires !e.Malformed?
    ensures |r| > 0
    ensures forall i :: 0 <= i < |r| ==> r[i] != '|' && r[i] != '\n'
  {
    match e
    case NumberNotValid => "NUMBER_NOT_VALID"
    case CannotDivideByZero => "CANNOT_DIVIDE_BY_0"
    case OperationNotValid => "OPERATION_NOT_VALID"
  }

  /** Distinct exceptions carry distinct messages, so a client can tell the
      kinds apart from the `ERROR` line alone. */
  lemma ErrorNamesDistinct(a: EvalError, b: EvalError)
    requires !a.Malformed? && !b.Malformed?
    ensures ErrorName(a) == ErrorName(b) <==> a == b
  {
    if a != b {
      assert ErrorName(a)[..4] != ErrorName(b)[..4] || |ErrorName(a)| != |ErrorName(b)|;
    }
  }

  datatype Calc = Ok(value: int) | Err(kind: EvalError)

  /** `getNumbersFromString`: parses every token; any token that does not
      parse makes the whole conversion fail. */
  function ParseAll(tokens: seq<string>): (r: Option<seq<int>>)
    ensures r.Some? <==> forall k :: 0 <= k < |tokens| ==> JavaDecimal.ParseInt(tokens[k]).Some?
    ensures r.Some? ==> |r.value| == |tokens|
    ensures r.Some? ==> forall k :: 0 <= k < |tokens| ==> JavaDecimal.ParseInt(tokens[k]) == Some(r.value[k])
  {
    if |tokens| == 0 then Some([])
    else
      match JavaDecimal.ParseInt(tokens[0])
      case None => None
      case Some(v) =>
        match ParseAll(tokens[1..])
        case None => None
        case Some(vs) => Some([v] + vs)
  }

  /** Applies an operation to two non-negative operands in Java `int`
      arithmetic; only a zero divisor fails. */
  function Apply(op: Op, n1: nat, n2: nat): (r: Calc)
    requires n1 <= JavaInt.MAX && n2 <= JavaInt.MAX
    ensures r.Ok? ==> JavaInt.IsInt32(r.value)
    ensures r.Err? <==> op == Div && n2 == 0
    ensures r.Err? ==> r.kind == CannotDivideByZero
  {
    match op
    case Add => Ok(JavaInt.Add(n1, n2))
    case Sub => Ok(JavaInt.Sub(n1, n2))
    case Div => if n2 != 0 then Ok(JavaInt.Div(n1, n2)) else Err(CannotDivideByZero)
    case Mult => Ok(JavaInt.Mul(n1, n2))
    case Pow => Ok(JavaInt.PowClamped(n1, n2))
  }

  /** The operand tokens of an expression. */
  function OperandTokens(str: string): (r: seq<string>)
    ensures forall k :: 0 <= k < |r| ==> JavaSplit.Free(r[k], JavaSplit.NonNumeral)
    ensures |r| == 0 <==> |str| > 0 && JavaSplit.AllMatch(str, JavaSplit.NonNumeral)
  {
    JavaSplit.SplitEmptyIff(str, JavaSplit.NonNumeral);
    JavaSplit.Split(str, JavaSplit.NonNumeral)
  }

  /** The operator tokens of an expression: the non-empty runs between digits. */
  function OperatorTokens(str: string): (r: seq<string>)
    ensures forall k :: 0 <= k < |r| ==> r[k] != "" && JavaSplit.Free(r[k], JavaSplit.Digit)
    ensures forall t :: t in r <==> t in JavaSplit.Split(str, JavaSplit.Digit) && t != ""
  {
    var tokens := JavaSplit.Split(str, JavaSplit.Digit);
    var r := JavaSplit.NonEmpty(tokens);
    forall t {
      JavaSplit.NonEmptyMembers(tokens, t);
    }
    r
  }

  /** `calculate(str)`. */
  function Calculate(str: string): (r: Calc)
    ensures r.Ok? ==> JavaInt.IsInt32(r.value)
  {
    var tokens := OperandTokens(str);
    var numbers := ParseAll(tokens);
    var operators := OperatorTokens(str);
    if numbers.None? then Err(NumberNotValid)
    else if |numbers.value| < 2 then Err(Malformed)
    else if |operators| == 0 then Err(Malformed)
    else
      var n1, n2 := numbers.value[0], numbers.value[1];
      match OpOfLabel(operators[0])
      case None => Err(OperationNotValid)
      case Some(op) => Apply(op, n1, n2)
  }

  /** An operand token Java accepts: a non-empty run of digits worth at most
      `Integer.MAX_VALUE`. */
  predicate ValidOperand(t: string) {
    t != "" && JavaDecimal.AllDigits(t) && JavaDecimal.NumeralValue(t) <= JavaInt.MAX
  }

  /** Every operand token is valid and there are at least two of them. */
  predicate WellFormedOperands(str: string) {
    var t := OperandTokens(str);
    |t| >= 2 && forall k :: 0 <= k < |t| ==> ValidOperand(t[k])
  }

  /** An operand token (made of digits, '.' and '\' only) fails to parse
      exactly when it is empty, contains '.' or '\', or is too large. */
  lemma OperandTokenParse(t: string)
    requires JavaSplit.Free(t, JavaSplit.NonNumeral)
    ensures JavaDecimal.ParseInt(t).None? <==>
      || t == ""
      || (exists i :: 0 <= i < |t| && (t[i] == '.' || t[i] == '\\'))
      || (JavaDecimal.AllDigits(t) && JavaDecimal.NumeralValue(t) > JavaInt.MAX)
    ensures JavaDecimal.ParseInt(t).Some? <==> ValidOperand(t)
    ensures JavaDecimal.ParseInt(t).Some? ==> JavaDecimal.ParseInt(t).value == JavaDecimal.NumeralValue(t)
  {
    assert forall i :: 0 <= i < |t| ==> !JavaSplit.Matches(JavaSplit.NonNumeral, t[i]);
    JavaDecimal.ParseUnsigned(t);
  }

  lemma ParseAllOperands(str: string)
    ensures ParseAll(OperandTokens(str)).Some? <==>
      forall k :: 0 <= k < |OperandTokens(str)| ==> ValidOperand(OperandTokens(str)[k])
    ensures ParseAll(OperandTokens(str)).Some? ==>
      forall k :: 0 <= k < |OperandTokens(str)| ==>
        ParseAll(OperandTokens(str)).value[k] == JavaDecimal.NumeralValue(OperandTokens(str)[k])
  {
    var t := OperandTokens(str);
    forall k | 0 <= k < |t|
      ensures JavaDecimal.ParseInt(t[k]).Some? <==> ValidOperand(t[k])
      ensures JavaDecimal.ParseInt(t[k]).Some? ==> JavaDecimal.ParseInt(t[k]).value == JavaDecimal.NumeralValue(t[k])
    {
      OperandTokenParse(t[k]);
    }
  }

  /** `NUMBER_NOT_VALID` is reported exactly when some operand token is not a
      valid operand, whatever the operator. */
  lemma CalculateNumberNotValid(str: string)
    ensures Calculate(str) == Err(NumberNotValid) <==>
      exists k :: 0 <= k < |OperandTokens(str)| && !ValidOperand(OperandTokens(str)[k])
  {
    ParseAllOperands(str);
  }

  /** With well-formed operands the expression starts with the first
      operand, one separator character, then the second operand. */
  lemma OperandLayout(str: string)
    requires WellFormedOperands(str)
    ensures var t := OperandTokens(str); var n := |t[0]|;
      && n < |str|
      && str == t[0] + [str[n]] + str[n + 1..]
      && JavaSplit.Matches(JavaSplit.NonNumeral, str[n])
      && |t[1]| <= |str[n + 1..]| && str[n + 1..][..|t[1]|] == t[1]
  {
    var t := OperandTokens(str);
    JavaSplit.SplitSecond(str, JavaSplit.NonNumeral);
    var n := |t[0]|;
    assert str == str[..n] + [str[n]] + str[n + 1..];
  }

  /** The character between the first two operands. */
  function Separator(str: string): char
    requires WellFormedOperands(str)
  {
    OperandLayout(str);
    str[|OperandTokens(str)[0]|]
  }

  /** An operand, one non-digit, then a second operand: the first operator
      token is that non-digit. */
  lemma OperatorAfterOperand(t0: string, c: char, y: string, t1: string)
    requires ValidOperand(t0) && ValidOperand(t1)
    requires JavaSplit.Matches(JavaSplit.NonNumeral, c)
    requires |t1| <= |y| && y[..|t1|] == t1
    ensures |OperatorTokens(t0 + [c] + y)| > 0 && OperatorTokens(t0 + [c] + y)[0] == [c]
  {
    assert y[0] == t1[0];
    JavaSplit.FirstNonEmptyToken(t0, c, y, JavaSplit.Digit);
  }

  /** When the operands are well formed, the first operator token exists and
      is exactly the one character between the first two operands. */
  lemma OperatorIsSeparator(str: string)
    requires WellFormedOperands(str)
    ensures |OperatorTokens(str)| > 0 && OperatorTokens(str)[0] == [Separator(str)]
  {
    var t := OperandTokens(str);
    assert ValidOperand(t[0]) && ValidOperand(t[1]);
    OperandLayout(str);
    var n := |t[0]|;
    OperatorAfterOperand(t[0], str[n], str[n + 1..], t[1]);
  }

  /** With well-formed operands, the result depends only on the first two
      operands and the character between them. */
  lemma CalculateShape(str: string)
    requires WellFormedOperands(str)
    ensures var t := OperandTokens(str);
      var v0, v1 := JavaDecimal.NumeralValue(t[0]), JavaDecimal.NumeralValue(t[1]);
      Calculate(str) ==
        match OpOfLabel([Separator(str)])
        case None => Err(OperationNotValid)
        case Some(op) => Apply(op, v0, v1)
  {
    ParseAllOperands(str);
    OperatorIsSeparator(str);
  }

  /** With well-formed operands and a separator that is the label of `op`,
      the result is `op` applied to the first two operands. */
  lemma CalculateByLabel(str: string, op: Op)
    requires WellFormedOperands(str)
    requires [Separator(str)] == Label(op)
    ensures var t := OperandTokens(str);
      Calculate(str) == Apply(op, JavaDecimal.NumeralValue(t[0]), JavaDecimal.NumeralValue(t[1]))
  {
    CalculateShape(str);
  }

  /** Fewer than two operands, all valid, is the index fault. */
  lemma CalculateMalformed(str: string)
    ensures Calculate(str) == Err(Malformed) <==>
      && |OperandTokens(str)| < 2
      && forall k :: 0 <= k < |OperandTokens(str)| ==> ValidOperand(OperandTokens(str)[k])
  {
    ParseAllOperands(str);
    if WellFormedOperands(str) {
      OperatorIsSeparator(str);
    }
  }

  /** With well-formed operands, `OPERATION_NOT_VALID` is reported exactly
      when the separator is none of the five labels. */
  lemma CalculateOperationNotValid(str: string)
    requires WellFormedOperands(str)
    ensures Calculate(str) == Err(OperationNotValid) <==> Separator(str) !in "+-/*^"
  {
    var c := Separator(str);
    if c == '+' {
      CalculateByLabel(str, Add);
    } else if c == '-' {
      CalculateByLabel(str, Sub);
    } else if c == '/' {
      CalculateByLabel(str, Div);
    } else if c == '*' {
      CalculateByLabel(str, Mult);
    } else if c == '^' {
      CalculateByLabel(str, Pow);
    } else {
      assert OpOfLabel([c]) == None;
      CalculateShape(str);
    }
  }

  /** Division: a zero divisor is reported, any other divisor gives the
      truncated quotient. */
  lemma CalculateDivision(str: string)
    requires WellFormedOperands(str)
    requires Separator(str) == '/'
    ensures var t := OperandTokens(str);
      var v0, v1 := JavaDecimal.NumeralValue(t[0]), JavaDecimal.NumeralValue(t[1]);
      && (v1 == 0 ==> Calculate(str) == Err(CannotDivideByZero))
      && (v1 != 0 ==> Calculate(str) == Ok(v0 / v1))
  {
    CalculateShape(str);
    assert OpOfLabel("/") == Some(Div);
  }

  /** The other four operations: `+` and `*` are Java's wrapping `int`
      addition and multiplication, `-` is exact, `^` is the power saturated at
      `Integer.MAX_VALUE`. */
  lemma CalculateArithmetic(str: string)
    requires WellFormedOperands(str)
    ensures var t := OperandTokens(str); var c := Separator(str);
      var v0, v1 := JavaDecimal.NumeralValue(t[0]), JavaDecimal.NumeralValue(t[1]);
      && (c == '+' ==> Calculate(str) == Ok(JavaInt.Add(v0, v1)))
      && (c == '-' ==> Calculate(str) == Ok(v0 - v1))
      && (c == '*' ==> Calculate(str) == Ok(JavaInt.Mul(v0, v1)))
      && (c == '^' ==> Calculate(str) == Ok(JavaInt.PowClamped(v0, v1)))
  {
    var c := Separator(str);
    if c == '+' {
      CalculateByLabel(str, Add);
    } else if c == '-' {
      CalculateByLabel(str, Sub);
    } else if c == '*' {
      CalculateByLabel(str, Mult);
    } else if c == '^' {
      CalculateByLabel(str, Pow);
    }
  }

  /** A two-operand expression `a c b` splits into exactly the operands `a`
      and `b`, and evaluates the operation `c` names. */
  lemma CalculateTwoOperands(a: string, c: char, b: string)
    requires ValidOperand(a) && ValidOperand(b)
    requires JavaSplit.Matches(JavaSplit.NonNumeral, c)
    ensures OperandTokens(a + [c] + b) == [a, b]
    ensures Calculate(a + [c] + b) ==
      match OpOfLabel([c])
      case None => Err(OperationNotValid)
      case Some(op) => Apply(op, JavaDecimal.NumeralValue(a), JavaDecimal.NumeralValue(b))
  {
    var s := a + [c] + b;
    assert JavaSplit.Free(a, JavaSplit.NonNumeral) && JavaSplit.Free(b, JavaSplit.NonNumeral);
    JavaSplit.PiecesAtMatch(a, c, b, JavaSplit.NonNumeral);
    assert s[|a|] == c;
    JavaSplit.PiecesOfFree(b, JavaSplit.NonNumeral);
    assert OperandTokens(s) == [a, b];
    CalculateShape(s);
  }

  /** `5+3` is 8. */
  lemma ExampleSum()
    ensures Calculate("5" + "+" + "3") == Ok(8)
  {
    var a, b := "5", "3";
    assert "+" == ['+'];
    CalculateTwoOperands(a, '+', b);
  }

  /** The greeting's sample `12+12` is 24. */
  lemma ExampleGreetingSample()
    ensures Calculate("12" + "+" + "12") == Ok(24)
  {
    var a, b := "12", "12";
    assert "+" == ['+'];
    CalculateTwoOperands(a, '+', b);
  }

  /** `9/2` is 4: the quotient is truncated. */
  lemma ExampleQuotient()
    ensures Calculate("9" + "/" + "2") == Ok(4)
  {
    var a, b := "9", "2";
    assert "/" == ['/'];
    CalculateTwoOperands(a, '/', b);
    assert JavaDecimal.NumeralValue(a) == 9 && JavaDecimal.NumeralValue(b) == 2;
    assert OpOfLabel(['/']) == Some(Div);
    assert Apply(Div, 9, 2) == Ok(4);
  }

  /** `9/0` is refused. */
  lemma ExampleDivideByZero()
    ensures Calculate("9" + "/" + "0") == Err(CannotDivideByZero)
  {
    var a, b := "9", "0";
    assert "/" == ['/'];
    CalculateTwoOperands(a, '/', b);
  }

  /** `2^3` is 8. */
  lemma ExamplePower()
    ensures Calculate("2" + "^" + "3") == Ok(8)
  {
    var a, b := "2", "3";
    assert "^" == ['^'];
    CalculateTwoOperands(a, '^', b);
    assert JavaDecimal.NumeralValue(a) == 2 && JavaDecimal.NumeralValue(b) == 3;
    assert OpOfLabel(['^']) == Some(Pow);
    assert JavaInt.Power(2, 3) == 8;
    assert Apply(Pow, 2, 3) == Ok(8);
  }

  /** `5&5` has two valid operands but no known operator. */
  lemma ExampleUnknownOperator()
    ensures Calculate("5" + "&" + "5") == Err(OperationNotValid)
  {
    var a, b := "5", "5";
    assert "&" == ['&'];
    CalculateTwoOperands(a, '&', b);
  }

  /** `-5+3` starts with a separator, so its first operand token is empty:
      `-` cannot sign an operand. */
  lemma ExampleLeadingMinus()
    ensures Calculate("-5+3") == Err(NumberNotValid)
  {
    var s := "-5+3";
    assert !JavaSplit.Matches(JavaSplit.NonNumeral, s[1]);
    JavaSplit.SplitLeadingEmpty(s, JavaSplit.NonNumeral);
    CalculateNumberNotValid(s);
  }

  /** The empty expression splits into one empty operand token. */
  lemma ExampleEmptyExpression()
    ensures Calculate("") == Err(NumberNotValid)
  {
    JavaSplit.SplitOfEmpty(JavaSplit.NonNumeral);
    CalculateNumberNotValid("");
  }

  /** Three operands joined by two separators split into exactly those
      three operand tokens. */
  lemma ThreeOperandTokens(x: string, c: char, y: string, d: char, z: string)
    requires ValidOperand(x) && ValidOperand(y) && ValidOperand(z)
    requires JavaSplit.Matches(JavaSplit.NonNumeral, c) && JavaSplit.Matches(JavaSplit.NonNumeral, d)
    ensures OperandTokens(x + [c] + (y + [d] + z)) == [x, y, z]
  {
    var s := x + [c] + (y + [d] + z);
    assert JavaSplit.Free(x, JavaSplit.NonNumeral) && JavaSplit.Free(y, JavaSplit.NonNumeral);
    assert JavaSplit.Free(z, JavaSplit.NonNumeral);
    JavaSplit.PiecesAtMatch(x, c, y + [d] + z, JavaSplit.NonNumeral);
    JavaSplit.PiecesAtMatch(y, d, z, JavaSplit.NonNumeral);
    JavaSplit.PiecesOfFree(z, JavaSplit.NonNumeral);
    assert JavaSplit.Pieces(s, JavaSplit.NonNumeral) == [x, y, z];
    assert !JavaSplit.Free(s, JavaSplit.NonNumeral) by {
      assert s[|x|] == c;
    }
  }

  /** Tokens beyond the second operand are ignored: `5+3+4` is 8. */
  lemma ExampleExtraOperands()
    ensures Calculate("5" + "+" + "3" + "+" + "4") == Ok(8)
  {
    var x, y, z := "5", "3", "4";
    var s := x + ['+'] + (y + ['+'] + z);
    assert s == "5" + "+" + "3" + "+" + "4";
    ThreeOperandTokens(x, '+', y, '+', z);
    assert WellFormedOperands(s);
    assert Separator(s) == '+';
    CalculateByLabel(s, Add);
    assert JavaDecimal.NumeralValue(x) == 5 && JavaDecimal.NumeralValue(y) == 3;
    assert Apply(Add, 5, 3) == Ok(8);
  }

  /** Two operands followed by a trailing separator still split into exactly
      those two operand tokens: the empty last piece is dropped. */
  lemma TrailingSeparatorTokens(a: string, c: char, b: string, d: char)
    requires ValidOperand(a) && ValidOperand(b)
    requires JavaSplit.Matches(JavaSplit.NonNumeral, c) && JavaSplit.Matches(JavaSplit.NonNumeral, d)
    ensures OperandTokens(a + [c] + (b + [d])) == [a, b]
  {
    var s := a + [c] + (b + [d] + "");
    assert b + [d] + "" == b + [d];
    assert JavaSplit.Free(a, JavaSplit.NonNumeral) && JavaSplit.Free(b, JavaSplit.NonNumeral);
    JavaSplit.PiecesAtMatch(a, c, b + [d] + "", JavaSplit.NonNumeral);
    JavaSplit.PiecesAtMatch(b, d, "", JavaSplit.NonNumeral);
    var pieces := JavaSplit.Pieces(s, JavaSplit.NonNumeral);
    assert pieces == [a, b, ""];
    assert !JavaSplit.Free(s, JavaSplit.NonNumeral) by {
      assert s[|a|] == c;
    }
    assert JavaSplit.DropTrailingEmpty(pieces) == [a, b] by {
      assert pieces[..2] == [a, b];
    }
  }

  /** `5+3+` is 8: the empty token after the trailing `+` is dropped by the
      split, so there are still exactly two operands. */
  lemma ExampleTrailingOperator()
    ensures Calculate("5" + "+" + "3" + "+") == Ok(8)
  {
    var a, b := "5", "3";
    var s := a + ['+'] + (b + ['+']);
    assert s == "5" + "+" + "3" + "+";
    TrailingSeparatorTokens(a, '+', b, '+');
    assert WellFormedOperands(s);
    assert Separator(s) == '+';
    CalculateByLabel(s, Add);
    assert JavaDecimal.NumeralValue(a) == 5 && JavaDecimal.NumeralValue(b) == 3;
    assert Apply(Add, 5, 3) == Ok(8);
  }

  /** `5++3` has an empty operand token between the two separators, so it is
      `NUMBER_NOT_VALID` rather than a sum. */
  lemma ExampleDoubledSeparator()
    ensures Calculate("5" + "++" + "3") == Err(NumberNotValid)
  {
    var a, b := "5", "3";
    var s := a + ['+'] + ("" + ['+'] + b);
    assert s == "5" + "++" + "3";
    assert JavaSplit.Free(a, JavaSplit.NonNumeral) && JavaSplit.Free(b, JavaSplit.NonNumeral);
    JavaSplit.PiecesAtMatch(a, '+', "" + ['+'] + b, JavaSplit.NonNumeral);
    JavaSplit.PiecesAtMatch("", '+', b, JavaSplit.NonNumeral);
    JavaSplit.PiecesOfFree(b, JavaSplit.NonNumeral);
    var pieces := JavaSplit.Pieces(s, JavaSplit.NonNumeral);
    assert pieces == [a, "", b];
    assert !JavaSplit.Free(s, JavaSplit.NonNumeral) by {
      assert s[|a|] == '+';
    }
    assert OperandTokens(s) == [a, "", b];
    assert !ValidOperand(OperandTokens(s)[1]);
    CalculateNumberNotValid(s);
  }
}
