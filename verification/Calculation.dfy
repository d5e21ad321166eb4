/** The bounded arithmetic evaluator. Integers are exact; what floating-point arithmetic answers is a
    parameter. */
module Calculation {
  import opened Text

  const MAX_ABS_INT := 1_000_000_000_000_000_000
  const MAX_POWER_ABS_EXPONENT := 12
  const MAX_FACTORIAL_ARGUMENT := 20
  const MAX_AST_NODES := 80

  const MAX_ABS_FLOAT := 1_000_000_000_000_000.0

  /** A floating-point number stands for the real number it is. */
  datatype Number = Int(n: int) | Float(x: real)

  datatype Unary = Plus | Minus

  datatype Binary = Add | Sub | Mult | Div | FloorDiv | Mod | Pow

  /** `MathOf` is any function of `math` whose result is a floating-point number. */
  datatype Function =
    | AbsOf | FactorialOf | MaxOf | MinOf | PowOf | SumOf | CeilOf | FloorOf | TruncOf | RoundOf
    | MathOf(name: string)

  datatype NamedConstant = Pi | E | Tau

  datatype Expr =
    | Constant(value: Number)
    | Name(constant: NamedConstant)
    | UnaryOp(op: Unary, operand: Expr)
    | BinOp(operation: Binary, left: Expr, right: Expr)
    | Call(callee: Function, args: seq<Expr>)

  datatype Error =
    | OutOfRange | DivisionByZero | ExponentOutOfRange | FactorialRange | InvalidArguments
    | MathematicalFailure | TooComplex

  /** What is asked of floating-point arithmetic. */
  datatype Operation = Operator(binary: Binary) | Applied(callee: Function)

  /** What it answers: a number, or the error the program raises. */
  type Floats = (Operation, seq<Number>) -> Result<real, Error>

  function Abs(x: int): nat {
    if x < 0 then -x else x
  }

  /** `//` and `%` in Python: the remainder takes the sign of the divisor. */
  function FloorQuotient(a: int, b: int): int
    requires b != 0
  {
    if b > 0 then a / b else (-a) / (-b)
  }

  function FloorRemainder(a: int, b: int): (r: int)
    requires b != 0
    ensures if b > 0 then 0 <= r < b else b < r <= 0
  {
    if b > 0 then a % b else -((-a) % (-b))
  }

  lemma Times(x: int, y: int)
    requires y >= 1
    ensures x >= 0 ==> x * y >= x
    ensures x <= 0 ==> x * y <= x
  {
    if x >= 0 {
      assert x * (y - 1) >= 0;
    } else {
      assert (-x) * (y - 1) >= 0;
    }
  }

  lemma QuotientBound(a: int, b: int)
    requires b >= 1
    ensures Abs(a / b) <= Abs(a)
  {
    var q := a / b;
    assert a == q * b + a % b;
    if q >= 0 {
      Times(q, b);
    } else {
      Times(q + 1, b);
      assert (q + 1) * b == q * b + b;
    }
  }

  lemma PositiveDivisor(a: int, b: int)
    requires b > 0
    ensures a == FloorQuotient(a, b) * b + FloorRemainder(a, b)
    ensures Abs(FloorQuotient(a, b)) <= Abs(a) && Abs(FloorRemainder(a, b)) < Abs(b)
  {
    QuotientBound(a, b);
  }

  lemma NegativeDivisor(a: int, b: int)
    requires b < 0
    ensures a == FloorQuotient(a, b) * b + FloorRemainder(a, b)
    ensures Abs(FloorQuotient(a, b)) <= Abs(a) && Abs(FloorRemainder(a, b)) < Abs(b)
  {
    QuotientBound(-a, -b);
    var q := (-a) / (-b);
    assert -a == q * (-b) + (-a) % (-b);
    assert q * (-b) == -(q * b);
  }

  /** Quotient and remainder fit together, and neither is larger than an operand. */
  lemma QuotientAndRemainder(a: int, b: int)
    requires b != 0
    ensures a == FloorQuotient(a, b) * b + FloorRemainder(a, b)
    ensures Abs(FloorQuotient(a, b)) <= Abs(a) && Abs(FloorRemainder(a, b)) < Abs(b)
  {
    hide Abs, FloorQuotient, FloorRemainder;
    if b > 0 {
      PositiveDivisor(a, b);
    } else {
      NegativeDivisor(a, b);
    }
  }

  function Power(base: int, exponent: nat): int {
    if exponent == 0 then 1 else base * Power(base, exponent - 1)
  }

  function Factorial(n: nat): nat {
    if n == 0 then 1 else n * Factorial(n - 1)
  }

  // ---- Raw results ----

  function ToNumber(r: Result<real, Error>): Result<Number, Error> {
    if r.Ok? then Ok(Float(r.value)) else Err(r.error)
  }

  function AsReal(v: Number): real {
    if v.Int? then v.n as real else v.x
  }

  function Magnitude(v: Number): real {
    if AsReal(v) < 0.0 then -AsReal(v) else AsReal(v)
  }

  /** `_checked_pow`: a huge exponent is rejected before the power is computed. */
  function CheckedPow(floats: Floats, op: Operation, base: Number, exponent: Number): Result<Number, Error> {
    if Magnitude(exponent) > MAX_POWER_ABS_EXPONENT as real then Err(ExponentOutOfRange)
    else if base.Int? && exponent.Int? && exponent.n >= 0 then Ok(Int(Power(base.n, exponent.n)))
    else if AsReal(base) == 0.0 && AsReal(exponent) < 0.0 then Err(DivisionByZero)
    else ToNumber(floats(op, [base, exponent]))
  }

  function CheckedFactorial(v: Number): Result<Number, Error> {
    if v.Float? || v.n < 0 || v.n > MAX_FACTORIAL_ARGUMENT then Err(FactorialRange) else Ok(Int(Factorial(v.n)))
  }

  /** What an operator computes before its result is held against the range. */
  function RawBinary(floats: Floats, op: Binary, a: Number, b: Number): Result<Number, Error> {
    if op == Pow then CheckedPow(floats, Operator(Pow), a, b)
    else if (op == Div || op == FloorDiv || op == Mod) && AsReal(b) == 0.0 then Err(DivisionByZero)
    else if a.Float? || b.Float? || op == Div then ToNumber(floats(Operator(op), [a, b]))
    else
      match op
      case Add => Ok(Int(a.n + b.n))
      case Sub => Ok(Int(a.n - b.n))
      case Mult => Ok(Int(a.n * b.n))
      case FloorDiv => Ok(Int(FloorQuotient(a.n, b.n)))
      case Mod => Ok(Int(FloorRemainder(a.n, b.n)))
  }

  function RawUnary(op: Unary, a: Number): Number {
    match op
    case Plus => a
    case Minus => if a.Int? then Int(-a.n) else Float(-a.x)
  }

  /** The nearest integer, the even one of two. */
  function Rounded(x: real): int {
    var below := x.Floor;
    var rest := x - below as real;
    if rest < 0.5 || (rest == 0.5 && below % 2 == 0) then below else below + 1
  }

  /** The nearest multiple of `p`, the even one of two. */
  function Nearest(n: int, p: int): int
    requires p >= 1
  {
    var below := n / p;
    var rest := n % p;
    if 2 * rest < p || (2 * rest == p && below % 2 == 0) then below * p else (below + 1) * p
  }

  /** `round` to a number of digits, which has to be an integer. */
  function RoundedTo(floats: Floats, v: Number, digits: Number): Result<Number, Error> {
    if digits.Float? then Err(InvalidArguments)
    else if v.Float? then ToNumber(floats(Applied(RoundOf), [v, digits]))
    else if digits.n >= 0 then Ok(v)
    else
      PowerGrows(10, 0, -digits.n);
      Ok(Int(Nearest(v.n, Power(10, -digits.n))))
  }

  /** `ceil`, `floor`, `trunc` and `round` of one number. */
  function ToInt(f: Function, v: Number): Number
    requires f.CeilOf? || f.FloorOf? || f.TruncOf? || f.RoundOf?
  {
    if v.Int? then v
    else
      match f
      case CeilOf => Int(-(-v.x).Floor)
      case FloorOf => Int(v.x.Floor)
      case TruncOf => Int(if v.x < 0.0 then -(-v.x).Floor else v.x.Floor)
      case RoundOf => Int(Rounded(v.x))
  }

  function AllInt(values: seq<Number>): (r: Option<seq<int>>)
    ensures r.Some? <==> forall v | v in values :: v.Int?
    ensures r.Some? ==> |r.value| == |values| && forall i | 0 <= i < |values| :: values[i] == Int(r.value[i])
  {
    if forall i | 0 <= i < |values| :: values[i].Int?
    then Some(seq(|values|, i requires 0 <= i < |values| && values[i].Int? => values[i].n)) else None
  }

  function Sum(values: seq<int>): int {
    if values == [] then 0 else Sum(values[..|values| - 1]) + values[|values| - 1]
  }

  /** The first of the greatest values. */
  function Greatest(values: seq<Number>): (m: Number)
    requires values != []
    ensures m in values && forall v | v in values :: AsReal(v) <= AsReal(m)
  {
    if |values| == 1 then values[0]
    else
      var rest := Greatest(values[1..]);
      assert values == [values[0]] + values[1..];
      if AsReal(values[0]) >= AsReal(rest) then values[0] else rest
  }

  /** The first of the least values. */
  function Smallest(values: seq<Number>): (m: Number)
    requires values != []
    ensures m in values && forall v | v in values :: AsReal(m) <= AsReal(v)
  {
    if |values| == 1 then values[0]
    else
      var rest := Smallest(values[1..]);
      assert values == [values[0]] + values[1..];
      if AsReal(values[0]) <= AsReal(rest) then values[0] else rest
  }

  /** A call with the wrong number of arguments is invalid; so are `max` and `min` of one number. */
  function RawCall(floats: Floats, f: Function, values: seq<Number>): Result<Number, Error> {
    match f
    case AbsOf =>
      if |values| != 1 then Err(InvalidArguments)
      else Ok(if values[0].Int? then Int(Abs(values[0].n)) else Float(Magnitude(values[0])))
    case FactorialOf => if |values| == 1 then CheckedFactorial(values[0]) else Err(InvalidArguments)
    case MaxOf => if |values| >= 2 then Ok(Greatest(values)) else Err(InvalidArguments)
    case MinOf => if |values| >= 2 then Ok(Smallest(values)) else Err(InvalidArguments)
    case PowOf =>
      if |values| != 2 then Err(InvalidArguments)
      else
        var r := CheckedPow(floats, Applied(PowOf), values[0], values[1]);
        if r == Err(DivisionByZero) then Err(MathematicalFailure) else r
    case SumOf =>
      var whole := AllInt(values);
      if whole.Some? then Ok(Int(Sum(whole.value))) else ToNumber(floats(Applied(SumOf), values))
    case MathOf(_) => ToNumber(floats(Applied(f), values))
    case RoundOf =>
      if |values| == 1 then Ok(ToInt(f, values[0]))
      else if |values| == 2 then RoundedTo(floats, values[0], values[1])
      else Err(InvalidArguments)
    case _ => if |values| == 1 then Ok(ToInt(f, values[0])) else Err(InvalidArguments)
  }

  // ---- Evaluation ----

  predicate InRange(v: Number) {
    if v.Int? then Abs(v.n) <= MAX_ABS_INT else Magnitude(v) <= MAX_ABS_FLOAT
  }

  /** `_finite_number`. */
  function Finite(r: Result<Number, Error>): (v: Result<Number, Error>)
    ensures v.Ok? ==> InRange(v.value) && r == v
  {
    if r.Ok? && !InRange(r.value) then Err(OutOfRange) else r
  }

  /** The named constants as they print. */
  function ValueOf(c: NamedConstant): real {
    match c
    case Pi => 3.141592653589793
    case E => 2.718281828459045
    case Tau => 6.283185307179586
  }

  function Eval(floats: Floats, e: Expr): (r: Result<Number, Error>)
    ensures r.Ok? ==> InRange(r.value)
  {
    match e
    case Constant(v) => Finite(Ok(v))
    case Name(c) => Ok(Float(ValueOf(c)))
    case UnaryOp(op, operand) =>
      var v := Eval(floats, operand);
      if v.Err? then v else Finite(Ok(RawUnary(op, v.value)))
    case BinOp(op, left, right) =>
      var a := Eval(floats, left);
      if a.Err? then a
      else
        var b := Eval(floats, right);
        if b.Err? then b else Finite(RawBinary(floats, op, a.value, b.value))
    case Call(f, args) =>
      var values := EvalAll(floats, args);
      if values.Err? then Err(values.error) else Finite(RawCall(floats, f, values.value))
  }

  /** The arguments from left to right, up to the first that fails. */
  function EvalAll(floats: Floats, args: seq<Expr>): (r: Result<seq<Number>, Error>)
    ensures r.Ok? ==> |r.value| == |args| && forall v | v in r.value :: InRange(v)
  {
    if args == [] then Ok([])
    else
      var first := Eval(floats, args[0]);
      if first.Err? then Err(first.error)
      else
        var rest := EvalAll(floats, args[1..]);
        if rest.Err? then rest else Ok([first.value] + rest.value)
  }

  /** The nodes of the syntax tree, operators and contexts included. */
  function Nodes(e: Expr): (n: nat)
    ensures n >= 1
  {
    match e
    case Constant(_) => 1
    case Name(_) => 2
    case UnaryOp(_, operand) => 2 + Nodes(operand)
    case BinOp(_, left, right) => 2 + Nodes(left) + Nodes(right)
    case Call(_, args) => 3 + NodesOf(args)
  }

  function NodesOf(args: seq<Expr>): (n: nat)
    ensures n >= |args|
  {
    if args == [] then 0 else Nodes(args[0]) + NodesOf(args[1..])
  }

  /** `evaluate_expression` on a parsed expression. */
  function Evaluate(floats: Floats, e: Expr): (r: Result<Number, Error>)
    ensures r.Ok? ==> InRange(r.value)
  {
    if 1 + Nodes(e) > MAX_AST_NODES then Err(TooComplex) else Finite(Eval(floats, e))
  }

  // ---- Exact integer values ----

  /** `v` is `a` divided by `b` and rounded down. */
  ghost predicate IsQuotient(v: int, a: int, b: int) {
    if b > 0 then v * b <= a < v * b + b else b < 0 && v * b >= a > v * b + b
  }

  /** `v` differs from `a` by a multiple of `b`, and lies between zero and `b`. */
  ghost predicate IsRemainder(v: int, a: int, b: int) {
    (exists q :: a == q * b + v) && (0 <= v < b || b < v <= 0)
  }

  /** What an operator makes of two integers, if that is an integer. */
  ghost predicate Makes(op: Binary, a: int, b: int, v: int) {
    match op
    case Add => v == a + b
    case Sub => v + b == a
    case Mult => v == a * b
    case Div => false
    case FloorDiv => IsQuotient(v, a, b)
    case Mod => IsRemainder(v, a, b)
    case Pow => 0 <= b <= 12 && v == Power(a, b)
  }

  /** `totals` adds the values up one by one. */
  ghost predicate AddsUp(totals: seq<int>, values: seq<int>) {
    && |totals| == |values| + 1 && totals[0] == 0
    && forall i | 0 <= i < |values| :: totals[i + 1] == totals[i] + values[i]
  }

  ghost predicate IsSum(v: int, values: seq<int>) {
    exists totals :: AddsUp(totals, values) && totals[|values|] == v
  }

  /** `v` is the multiple of `p` nearest to `n`, the even one of two. */
  ghost predicate IsNearest(v: int, n: int, p: int) {
    exists q :: v == q * p && -p <= 2 * (n - v) <= p && (2 * Abs(n - v) == p ==> q % 2 == 0)
  }

  /** What a function makes of integers, if that is an integer. */
  ghost predicate Gives(f: Function, values: seq<int>, v: int) {
    match f
    case AbsOf => |values| == 1 && v >= 0 && (v == values[0] || v == -values[0])
    case FactorialOf => |values| == 1 && 0 <= values[0] <= 20 && v == Factorial(values[0])
    case MaxOf => |values| >= 2 && v in values && forall i | 0 <= i < |values| :: values[i] <= v
    case MinOf => |values| >= 2 && v in values && forall i | 0 <= i < |values| :: v <= values[i]
    case PowOf => |values| == 2 && Makes(Pow, values[0], values[1], v)
    case SumOf => IsSum(v, values)
    case RoundOf =>
      || (|values| == 1 && v == values[0])
      || (|values| == 2 && values[1] >= 0 && v == values[0])
      || (|values| == 2 && values[1] < 0 && IsNearest(v, values[0], Power(10, -values[1])))
    case MathOf(_) => false
    case _ => |values| == 1 && v == values[0]
  }

  /** The exact value of an expression that is an integer at every step and never leaves the range. */
  ghost predicate Yields(e: Expr, v: int) {
    && -1_000_000_000_000_000_000 <= v <= 1_000_000_000_000_000_000
    && match e
       case Constant(value) => value == Int(v)
       case Name(_) => false
       case UnaryOp(op, operand) => if op.Plus? then Yields(operand, v) else Yields(operand, -v)
       case BinOp(op, left, right) => exists a, b :: Yields(left, a) && Yields(right, b) && Makes(op, a, b, v)
       case Call(f, args) =>
         exists values: seq<int> ::
           && |values| == |args| && (forall i | 0 <= i < |args| :: Yields(args[i], values[i]))
           && Gives(f, values, v)
  }

  /** No floating-point number is met. */
  ghost predicate Whole(floats: Floats, e: Expr) {
    && (Eval(floats, e).Ok? ==> Eval(floats, e).value.Int?)
    && match e
       case UnaryOp(_, operand) => Whole(floats, operand)
       case BinOp(_, left, right) => Whole(floats, left) && Whole(floats, right)
       case Call(_, args) => forall i | 0 <= i < |args| :: Whole(floats, args[i])
       case _ => true
  }

  lemma QuotientExactly(a: int, b: int, v: int)
    ensures IsQuotient(v, a, b) <==> b != 0 && v == FloorQuotient(a, b)
  {
    if b != 0 {
      var q := FloorQuotient(a, b);
      QuotientAndRemainder(a, b);
      assert a == q * b + FloorRemainder(a, b);
      if IsQuotient(v, a, b) {
        assert (v - q) * b == v * b - q * b;
        if v > q {
          assert (v - q - 1) * b == v * b - q * b - b;
        }
        OnlyMultiple(v - q, b);
      }
    }
  }

  /** Zero is the only multiple nearer to zero than the number itself. */
  lemma OnlyMultiple(k: int, b: int)
    requires b != 0 && Abs(k * b) < Abs(b)
    ensures k == 0
  {
    if k != 0 {
      assert Abs(k * b) == Abs(k) * Abs(b);
      Times(Abs(b), Abs(k));
    }
  }

  lemma RemainderExactly(a: int, b: int, v: int)
    ensures IsRemainder(v, a, b) <==> b != 0 && v == FloorRemainder(a, b)
  {
    if b != 0 {
      var q := FloorQuotient(a, b);
      QuotientAndRemainder(a, b);
      assert a == q * b + FloorRemainder(a, b);
      if IsRemainder(v, a, b) {
        var p :| a == p * b + v;
        assert (p - q) * b == p * b - q * b;
        OnlyMultiple(p - q, b);
      }
    }
  }

  /** Of two neighbouring multiples the nearer one, the even one in the middle. */
  predicate Upwards(below: int, rest: int, p: int) {
    2 * rest > p || (2 * rest == p && below % 2 == 1)
  }

  lemma NearestIs(n: int, p: int, below: int, rest: int)
    requires p >= 1 && below == n / p && rest == n % p
    ensures 0 <= rest < p && n == below * p + rest
    ensures Nearest(n, p) == if Upwards(below, rest, p) then below * p + p else below * p
  {
    assert (below + 1) * p == below * p + p;
  }

  lemma NearestIsNear(n: int, p: int)
    requires p >= 1
    ensures IsNearest(Nearest(n, p), n, p)
  {
    var below, rest := n / p, n % p;
    NearestIs(n, p, below, rest);
    hide Nearest;
    var q := if Upwards(below, rest, p) then below + 1 else below;
    assert (below + 1) * p == below * p + p;
    assert Nearest(n, p) == q * p;
  }

  lemma OnlyNearest(n: int, p: int, q: int)
    requires p >= 1 && -p <= 2 * (n - q * p) <= p && (2 * Abs(n - q * p) == p ==> q % 2 == 0)
    ensures q * p == Nearest(n, p)
  {
    var below, rest := n / p, n % p;
    NearestIs(n, p, below, rest);
    hide Nearest;
    var product, multiple := q * p, below * p;
    assert (q - below) * p == product - multiple;
    NearMultiple(q - below, p, rest);
    assert product == if q == below then multiple else multiple + p;
  }

  lemma NearestExactly(n: int, p: int, v: int)
    requires p >= 1
    ensures IsNearest(v, n, p) <==> v == Nearest(n, p)
  {
    NearestIsNear(n, p);
    hide Nearest;
    if IsNearest(v, n, p) {
      var q :| v == q * p && -p <= 2 * (n - v) <= p && (2 * Abs(n - v) == p ==> q % 2 == 0);
      OnlyNearest(n, p, q);
    }
  }

  lemma NearMultiple(k: int, p: int, rest: int)
    requires p >= 1 && 0 <= rest < p && -p <= 2 * (rest - k * p) <= p
    ensures k == 0 || k == 1
  {
    assert p * (k - 1) == k * p - p && p * -k == -(k * p);
    if k >= 2 {
      Times(p, k - 1);
    } else if k <= -1 {
      Times(p, -k);
    }
  }

  lemma {:induction false} SumAddsUp(values: seq<int>) returns (totals: seq<int>)
    ensures AddsUp(totals, values) && totals[|values|] == Sum(values)
  {
    if values == [] {
      totals := [0];
    } else {
      var n := |values| - 1;
      var before := SumAddsUp(values[..n]);
      totals := before + [before[n] + values[n]];
    }
  }

  lemma {:induction false} TotalIsSum(totals: seq<int>, values: seq<int>)
    requires AddsUp(totals, values)
    ensures totals[|values|] == Sum(values)
  {
    if values != [] {
      var n := |values| - 1;
      assert AddsUp(totals[..n + 1], values[..n]);
      TotalIsSum(totals[..n + 1], values[..n]);
    }
  }

  lemma {:induction false} SumExactly(v: int, values: seq<int>)
    ensures IsSum(v, values) <==> v == Sum(values)
  {
    var totals := SumAddsUp(values);
    if IsSum(v, values) {
      var others :| AddsUp(others, values) && others[|values|] == v;
      TotalIsSum(others, values);
    }
  }

  /** Every operator makes of two integers what it should, or no integer. */
  lemma OperatorExactly(floats: Floats, op: Binary, a: int, b: int, v: int)
    ensures Makes(op, a, b, v) <==> RawBinary(floats, op, Int(a), Int(b)) == Ok(Int(v))
  {
    hide Power, FloorQuotient, FloorRemainder, IsQuotient, IsRemainder;
    if op == FloorDiv {
      QuotientExactly(a, b, v);
    } else if op == Mod {
      RemainderExactly(a, b, v);
    }
    assert b as real == 0.0 <==> b == 0;
    assert MAX_POWER_ABS_EXPONENT as real == 12.0;
  }

  function Ints(values: seq<int>): (r: seq<Number>)
    ensures |r| == |values| && forall i | 0 <= i < |r| :: r[i] == Int(values[i])
  {
    seq(|values|, i requires 0 <= i < |values| => Int(values[i]))
  }

  lemma ExtremeExactly(floats: Floats, values: seq<int>, v: int)
    requires |values| >= 2
    ensures Gives(MaxOf, values, v) <==> Greatest(Ints(values)) == Int(v)
    ensures Gives(MinOf, values, v) <==> Smallest(Ints(values)) == Int(v)
  {
    var numbers := Ints(values);
    assert forall n :: n in values <==> Int(n) in numbers by {
      forall n | n in values ensures Int(n) in numbers {
        var i :| 0 <= i < |values| && values[i] == n;
        assert numbers[i] == Int(n);
      }
    }
    forall i | 0 <= i < |values|
      ensures AsReal(Int(values[i])) <= AsReal(Greatest(numbers)) && AsReal(Smallest(numbers)) <= AsReal(Int(values[i]))
    {
      assert numbers[i] in numbers;
    }
  }

  lemma AllAreInt(values: seq<int>)
    ensures AllInt(Ints(values)) == Some(values)
  {
    var numbers := Ints(values);
    forall v | v in numbers ensures v.Int? {
      var i :| 0 <= i < |numbers| && numbers[i] == v;
    }
    var whole := AllInt(numbers);
    assert forall i | 0 <= i < |values| :: numbers[i] == Int(whole.value[i]);
    assert whole.value == values;
  }

  /** Every function gives of integers what it should, or no integer. */
  lemma FunctionExactly(floats: Floats, f: Function, values: seq<int>, v: int)
    ensures Gives(f, values, v) <==> RawCall(floats, f, Ints(values)) == Ok(Int(v))
  {
    hide Power, Factorial, Makes, Sum, Greatest, Smallest, Nearest, IsNearest, IsSum;
    match f {
      case MaxOf =>
        if |values| >= 2 {
          ExtremeExactly(floats, values, v);
        }
      case MinOf =>
        if |values| >= 2 {
          ExtremeExactly(floats, values, v);
        }
      case PowOf =>
        if |values| == 2 {
          OperatorExactly(floats, Pow, values[0], values[1], v);
          PowAlike(floats, values[0], values[1]);
        }
      case SumOf =>
        SumExactly(v, values);
        AllAreInt(values);
      case RoundOf =>
        if |values| == 2 && values[1] < 0 {
          PowerGrows(10, 0, -values[1]);
          NearestExactly(values[0], Power(10, -values[1]), v);
        }
      case _ =>
    }
  }

  /** The operator and the function agree on where a power is an integer. */
  lemma PowAlike(floats: Floats, a: int, b: int)
    ensures var operator := CheckedPow(floats, Operator(Pow), Int(a), Int(b));
      var applied := CheckedPow(floats, Applied(PowOf), Int(a), Int(b));
      forall v :: operator == Ok(Int(v)) <==> applied == Ok(Int(v))
  {
    hide Power;
  }

  ghost predicate EvaluateTo(floats: Floats, args: seq<Expr>, values: seq<int>)
    requires |values| == |args|
  {
    forall i | 0 <= i < |args| :: Eval(floats, args[i]) == Ok(Int(values[i]))
  }

  lemma {:induction false} FirstEvaluatesTo(floats: Floats, args: seq<Expr>, values: seq<int>)
    requires |values| == |args| > 0
    ensures EvaluateTo(floats, args, values) <==>
      Eval(floats, args[0]) == Ok(Int(values[0])) && EvaluateTo(floats, args[1..], values[1..])
  {
    hide Eval;
    if Eval(floats, args[0]) == Ok(Int(values[0])) && EvaluateTo(floats, args[1..], values[1..]) {
      forall i | 0 < i < |args| ensures Eval(floats, args[i]) == Ok(Int(values[i])) {
        assert args[i] == args[1..][i - 1] && values[i] == values[1..][i - 1];
      }
    }
  }

  /** The arguments evaluate to integers exactly when each does. */
  lemma {:induction false} ArgumentsExactly(floats: Floats, args: seq<Expr>, values: seq<int>)
    requires |values| == |args|
    ensures EvalAll(floats, args) == Ok(Ints(values)) <==> EvaluateTo(floats, args, values)
  {
    if args != [] {
      ArgumentsExactly(floats, args[1..], values[1..]);
      FirstEvaluatesTo(floats, args, values);
      hide Eval, EvaluateTo;
      var first, rest := Eval(floats, args[0]), EvalAll(floats, args[1..]);
      assert Ints(values) == [Int(values[0])] + Ints(values[1..]);
      assert first.Ok? && rest.Ok? ==> ([first.value] + rest.value)[1..] == rest.value;
      assert Ints(values)[1..] == Ints(values[1..]);
    }
  }

  /** Evaluation gives an integer without meeting a floating-point number exactly when that integer is
      the exact value of the expression, whatever floating-point arithmetic would answer. */
  lemma {:induction false} YieldsExactly(floats: Floats, e: Expr, v: int)
    ensures Yields(e, v) <==> Eval(floats, e) == Ok(Int(v)) && Whole(floats, e)
    decreases e, 1
  {
    hide RawBinary, RawCall, Makes, Gives;
    match e {
      case Constant(_) =>
      case Name(_) =>
      case UnaryOp(op, operand) =>
        YieldsExactly(floats, operand, v);
        YieldsExactly(floats, operand, -v);
      case BinOp(_, _, _) =>
        OperatorYields(floats, e, v);
      case Call(_, _) =>
        CallYields(floats, e, v);
    }
  }

  lemma {:induction false} OperatorYields(floats: Floats, e: Expr, v: int)
    requires e.BinOp?
    ensures Yields(e, v) <==> Eval(floats, e) == Ok(Int(v)) && Whole(floats, e)
    decreases e, 0
  {
    hide RawBinary, Makes;
    var op, left, right := e.operation, e.left, e.right;
    if Yields(e, v) {
      var a, b :| Yields(left, a) && Yields(right, b) && Makes(op, a, b, v);
      YieldsExactly(floats, left, a);
      YieldsExactly(floats, right, b);
      OperatorExactly(floats, op, a, b, v);
    }
    if Eval(floats, e) == Ok(Int(v)) && Whole(floats, e) {
      assert Whole(floats, left) && Whole(floats, right);
      var a, b := Eval(floats, left).value.n, Eval(floats, right).value.n;
      YieldsExactly(floats, left, a);
      YieldsExactly(floats, right, b);
      OperatorExactly(floats, op, a, b, v);
    }
  }

  lemma {:induction false} CallYields(floats: Floats, e: Expr, v: int)
    requires e.Call?
    ensures Yields(e, v) <==> Eval(floats, e) == Ok(Int(v)) && Whole(floats, e)
    decreases e, 0
  {
    hide RawCall, Gives;
    var f, args := e.callee, e.args;
    if Yields(e, v) {
      var values: seq<int> :|
        |values| == |args| && (forall i | 0 <= i < |args| :: Yields(args[i], values[i])) && Gives(f, values, v);
      forall i | 0 <= i < |args| ensures Eval(floats, args[i]) == Ok(Int(values[i])) && Whole(floats, args[i]) {
        YieldsExactly(floats, args[i], values[i]);
      }
      ArgumentsExactly(floats, args, values);
      FunctionExactly(floats, f, values, v);
    }
    if Eval(floats, e) == Ok(Int(v)) && Whole(floats, e) {
      var values := WholeArguments(floats, args);
      forall i | 0 <= i < |args| ensures Yields(args[i], values[i]) {
        YieldsExactly(floats, args[i], values[i]);
      }
      ArgumentsExactly(floats, args, values);
      FunctionExactly(floats, f, values, v);
    }
  }

  lemma {:induction false} WholeArguments(floats: Floats, args: seq<Expr>) returns (values: seq<int>)
    requires EvalAll(floats, args).Ok? && forall i | 0 <= i < |args| :: Whole(floats, args[i])
    ensures |values| == |args| && forall i | 0 <= i < |args| :: Eval(floats, args[i]) == Ok(Int(values[i]))
  {
    if args == [] {
      values := [];
    } else {
      assert Whole(floats, args[0]);
      hide Whole;
      var rest := WholeArguments(floats, args[1..]);
      values := [Eval(floats, args[0]).value.n] + rest;
      assert forall i | 0 < i < |args| :: args[i] == args[1..][i - 1];
    }
  }

  /** What becomes of a floating-point number: the next integer up, down, towards zero, or the
      nearest, the even one of two. */
  lemma ToIntExactly(f: Function, x: real)
    requires f.CeilOf? || f.FloorOf? || f.TruncOf? || f.RoundOf?
    ensures var r := ToInt(f, Float(x));
      && r.Int?
      && var n := r.n as real;
      && (f.CeilOf? ==> n - 1.0 < x <= n)
      && (f.FloorOf? ==> n <= x < n + 1.0)
      && (f.TruncOf? ==> if x >= 0.0 then 0.0 <= n <= x < n + 1.0 else n - 1.0 < x <= n <= 0.0)
      && (f.RoundOf? ==> -0.5 <= x - n <= 0.5 && (x - n == 0.5 || x - n == -0.5 ==> r.n % 2 == 0))
  {
    assert f.RoundOf? ==> ToInt(f, Float(x)).n == Rounded(x);
    assert x.Floor as real <= x < x.Floor as real + 1.0;
  }

  /** Which operators fail on two integers within the range, and why. */
  lemma OperatorFails(floats: Floats, op: Binary, a: int, b: int)
    requires op != Div && (op == Pow ==> b >= 0)
    ensures var r := Finite(RawBinary(floats, op, Int(a), Int(b)));
      && (r == Err(DivisionByZero) <==> (op == FloorDiv || op == Mod) && b == 0)
      && (r == Err(ExponentOutOfRange) <==> op == Pow && b > 12)
      && (r == Err(OutOfRange) <==>
            exists v :: Makes(op, a, b, v) && (v < -1_000_000_000_000_000_000 || v > 1_000_000_000_000_000_000))
      && (r.Err? ==> r == Err(DivisionByZero) || r == Err(ExponentOutOfRange) || r == Err(OutOfRange))
  {
    hide Power, FloorQuotient, FloorRemainder, Makes;
    var raw := RawBinary(floats, op, Int(a), Int(b));
    assert b as real == 0.0 <==> b == 0;
    assert MAX_POWER_ABS_EXPONENT as real == 12.0;
    if v :| Makes(op, a, b, v) && (v < -1_000_000_000_000_000_000 || v > 1_000_000_000_000_000_000) {
      OperatorExactly(floats, op, a, b, v);
    }
    if raw.Ok? {
      OperatorExactly(floats, op, a, b, raw.value.n);
    }
  }

  // ---- Every integer the evaluation computes ----

  /** The integer results of all operators and functions that evaluation applies, before the range
      check. */
  function Raws(floats: Floats, e: Expr): seq<int> {
    match e
    case Constant(_) => []
    case Name(_) => []
    case UnaryOp(op, operand) =>
      var v := Eval(floats, operand);
      Raws(floats, operand) + if v.Ok? then Computed(Ok(RawUnary(op, v.value))) else []
    case BinOp(op, left, right) =>
      var a, b := Eval(floats, left), Eval(floats, right);
      if a.Err? then Raws(floats, left)
      else
        Raws(floats, left) + Raws(floats, right)
          + if b.Ok? then Computed(RawBinary(floats, op, a.value, b.value)) else []
    case Call(f, args) =>
      var values := EvalAll(floats, args);
      RawsOf(floats, args) + if values.Ok? then Computed(RawCall(floats, f, values.value)) else []
  }

  function RawsOf(floats: Floats, args: seq<Expr>): seq<int> {
    if args == [] then []
    else if Eval(floats, args[0]).Err? then Raws(floats, args[0])
    else Raws(floats, args[0]) + RawsOf(floats, args[1..])
  }

  function Computed(r: Result<Number, Error>): seq<int> {
    if r.Ok? && r.value.Int? then [r.value.n] else []
  }

  lemma ProductBound(a: int, b: int, m: nat, n: nat)
    requires Abs(a) <= m && Abs(b) <= n
    ensures Abs(a * b) <= m * n
  {
    assert Abs(a * b) == Abs(a) * Abs(b);
    assert Abs(a) * Abs(b) <= m * Abs(b);
    assert m * Abs(b) <= m * n;
  }

  /** A raw product of values in range has at most twice their digits. */
  lemma RawProductBound(a: int, b: int)
    requires InRange(Int(a)) && InRange(Int(b))
    ensures Abs(a * b) <= MAX_ABS_INT * MAX_ABS_INT
  {
    ProductBound(a, b, MAX_ABS_INT, MAX_ABS_INT);
  }

  lemma {:induction false} PowerBound(base: int, m: nat, exponent: nat)
    requires Abs(base) <= m && m >= 1
    ensures Abs(Power(base, exponent)) <= Power(m, exponent)
  {
    if exponent > 0 {
      PowerBound(base, m, exponent - 1);
      ProductBound(base, Power(base, exponent - 1), m, Power(m, exponent - 1));
    }
  }

  lemma {:induction false} PowerGrows(m: nat, i: nat, j: nat)
    requires m >= 1 && i <= j
    ensures 1 <= Power(m, i) <= Power(m, j)
    decreases j
  {
    if i < j {
      PowerGrows(m, i, j - 1);
      assert Power(m, j) == m * Power(m, j - 1);
      assert Power(m, j - 1) <= m * Power(m, j - 1);
    } else if i > 0 {
      PowerGrows(m, i - 1, i - 1);
      assert 1 <= m * Power(m, i - 1);
    }
  }

  /** A raw power of a value in range is at most the twelfth power of the limit. */
  lemma RawPowerBound(floats: Floats, op: Operation, base: Number, exponent: Number)
    requires InRange(base)
    ensures var r := CheckedPow(floats, op, base, exponent);
      r.Ok? && r.value.Int? ==> Abs(r.value.n) <= Power(MAX_ABS_INT, MAX_POWER_ABS_EXPONENT)
  {
    if base.Int? && exponent.Int? && 0 <= exponent.n <= MAX_POWER_ABS_EXPONENT {
      PowerBound(base.n, MAX_ABS_INT, exponent.n);
      PowerGrows(MAX_ABS_INT, exponent.n, MAX_POWER_ABS_EXPONENT);
    }
  }

  lemma {:induction false} SumBound(values: seq<int>)
    requires forall v | v in values :: InRange(Int(v))
    ensures Abs(Sum(values)) <= |values| * MAX_ABS_INT
  {
    if values != [] {
      var n := |values| - 1;
      assert values[n] in values;
      SumBound(values[..n]);
      assert |values| * MAX_ABS_INT == n * MAX_ABS_INT + MAX_ABS_INT;
    }
  }

  const TWENTY_FACTORIAL := 2_432_902_008_176_640_000

  lemma FactorialValues()
    ensures Factorial(19) == 121_645_100_408_832_000 && Factorial(20) == TWENTY_FACTORIAL
  {
    assert Factorial(5) == 120;
    assert Factorial(10) == 3_628_800;
    assert Factorial(15) == 1_307_674_368_000;
  }

  lemma {:induction false} FactorialGrows(i: nat, j: nat)
    requires i <= j
    ensures 1 <= Factorial(i) <= Factorial(j)
    decreases j
  {
    if i < j {
      FactorialGrows(i, j - 1);
      Times(Factorial(j - 1), j);
      assert Factorial(j) == j * Factorial(j - 1);
    } else if i > 0 {
      FactorialGrows(i - 1, i - 1);
      Times(Factorial(i - 1), i);
    }
  }

  /** `factorial` yields a value exactly for the integers 0 to 19: twenty passes the argument
      check, but its factorial is out of range. */
  lemma {:induction false} FactorialExactly(floats: Floats, e: Expr, v: Number)
    requires Eval(floats, e) == Ok(v)
    ensures var r := Eval(floats, Call(FactorialOf, [e]));
      && (r.Ok? <==> v.Int? && 0 <= v.n <= 19)
      && (v == Int(20) ==> r == Err(OutOfRange))
      && (v.Int? && 0 <= v.n <= 19 ==> r == Ok(Int(Factorial(v.n))))
  {
    assert EvalAll(floats, [e]) == Ok([v]) by {
      assert [e][1..] == [];
      assert [v] + [] == [v];
    }
    FactorialValues();
    if v.Int? && 0 <= v.n <= 19 {
      FactorialGrows(v.n, 19);
    }
  }

  /** What any raw result is bounded by: the twelfth power of the range limit. */
  predicate Tame(v: int) {
    Abs(v) <= Power(MAX_ABS_INT, MAX_POWER_ABS_EXPONENT)
  }

  lemma SmallIsTame(v: int)
    requires Abs(v) <= MAX_ABS_INT * MAX_ABS_INT
    ensures Tame(v)
  {
    PowerGrows(MAX_ABS_INT, 2, MAX_POWER_ABS_EXPONENT);
    assert Power(MAX_ABS_INT, 2) == MAX_ABS_INT * Power(MAX_ABS_INT, 1);
    assert Power(MAX_ABS_INT, 1) == MAX_ABS_INT * Power(MAX_ABS_INT, 0);
  }

  /** An integer result is tame; nothing is said of a floating-point one. */
  predicate TameResult(r: Result<Number, Error>) {
    r.Ok? && r.value.Int? ==> Tame(r.value.n)
  }

  lemma RawBinaryTame(floats: Floats, op: Binary, a: Number, b: Number)
    requires InRange(a) && InRange(b)
    ensures TameResult(RawBinary(floats, op, a, b))
  {
    if op == Pow {
      RawPowerBound(floats, Operator(Pow), a, b);
    } else if a.Int? && b.Int? {
      hide Tame;
      if op == Mult {
        RawProductBound(a.n, b.n);
        SmallIsTame(a.n * b.n);
      } else {
        if b.n != 0 {
          QuotientAndRemainder(a.n, b.n);
        }
        var r := RawBinary(floats, op, a, b);
        if r.Ok? && r.value.Int? {
          SmallIsTame(r.value.n);
        }
      }
    }
  }

  lemma RawUnaryTame(op: Unary, a: Number)
    requires InRange(a)
    ensures TameResult(Ok(RawUnary(op, a)))
  {
    hide Tame;
    if a.Int? {
      SmallIsTame(RawUnary(op, a).n);
    }
  }

  /** Making an integer of a number in range leaves it in reach of the range. */
  lemma ToIntTame(f: Function, v: Number)
    requires (f.CeilOf? || f.FloorOf? || f.TruncOf? || f.RoundOf?) && InRange(v)
    ensures TameResult(Ok(ToInt(f, v)))
  {
    hide Tame;
    var n := ToInt(f, v).n;
    if v.Float? {
      assert v.x - 1.0 <= n as real <= v.x + 1.0;
      assert -MAX_ABS_FLOAT - 1.0 <= n as real <= MAX_ABS_FLOAT + 1.0;
    }
    SmallIsTame(n);
  }

  /** Rounding to a multiple at most doubles a number. */
  lemma NearestBound(n: int, p: int)
    requires p >= 1
    ensures Abs(Nearest(n, p)) <= 2 * Abs(n)
  {
    var below, rest := n / p, n % p;
    assert n == below * p + rest;
    assert (below + 1) * p == below * p + p;
    if below >= 1 {
      Times(p, below);
    } else if below <= -2 {
      Times(p, -below - 1);
      assert p * (-below - 1) == -((below + 1) * p);
    } else {
      assert below == 0 || below == -1;
    }
  }

  lemma RoundedToTame(floats: Floats, v: Number, digits: Number)
    requires InRange(v)
    ensures TameResult(RoundedTo(floats, v, digits))
  {
    hide Tame;
    if v.Int? {
      InRangeTame(v);
      if digits.Int? && digits.n < 0 {
        PowerGrows(10, 0, -digits.n);
        NearestBound(v.n, Power(10, -digits.n));
        hide Power, Nearest;
        SmallIsTame(Nearest(v.n, Power(10, -digits.n)));
      }
    }
  }

  lemma {:induction false} SumTame(values: seq<Number>)
    requires |values| <= MAX_AST_NODES && forall v | v in values :: InRange(v)
    ensures AllInt(values).Some? ==> Tame(Sum(AllInt(values).value))
  {
    hide Tame, Sum;
    var whole := AllInt(values);
    if whole.Some? {
      forall n | n in whole.value ensures InRange(Int(n)) {
        var i :| 0 <= i < |whole.value| && whole.value[i] == n;
        assert values[i] in values;
      }
      SumBound(whole.value);
      SmallIsTame(Sum(whole.value));
    }
  }

  lemma InRangeTame(v: Number)
    requires InRange(v)
    ensures TameResult(Ok(v))
  {
    hide Tame;
    if v.Int? {
      SmallIsTame(v.n);
    }
  }

  lemma FactorialTame(v: Number)
    ensures TameResult(CheckedFactorial(v))
  {
    hide Tame;
    FactorialValues();
    if v.Int? && 0 <= v.n <= MAX_FACTORIAL_ARGUMENT {
      FactorialGrows(v.n, 20);
      SmallIsTame(Factorial(v.n));
    }
  }

  lemma RawCallTame(floats: Floats, f: Function, values: seq<Number>)
    requires |values| <= MAX_AST_NODES && forall v | v in values :: InRange(v)
    ensures TameResult(RawCall(floats, f, values))
  {
    hide Tame, Sum, ToInt, CheckedFactorial, CheckedPow, RoundedTo;
    match f {
      case PowOf =>
        if |values| == 2 {
          PowTame(floats, Applied(PowOf), values[0], values[1]);
        }
      case FactorialOf =>
        if |values| == 1 {
          FactorialTame(values[0]);
        }
      case SumOf =>
        SumTame(values);
      case MathOf(_) =>
      case MaxOf =>
        if |values| >= 2 {
          InRangeTame(Greatest(values));
        }
      case MinOf =>
        if |values| >= 2 {
          InRangeTame(Smallest(values));
        }
      case RoundOf =>
        if |values| == 1 {
          ToIntTame(f, values[0]);
        } else if |values| == 2 {
          RoundedToTame(floats, values[0], values[1]);
        }
      case AbsOf =>
        if |values| == 1 && values[0].Int? {
          assert InRange(values[0]) && Abs(Abs(values[0].n)) == Abs(values[0].n);
          SmallIsTame(Abs(values[0].n));
        }
      case _ =>
        if |values| == 1 {
          ToIntTame(f, values[0]);
        }
    }
  }

  lemma PowTame(floats: Floats, op: Operation, base: Number, exponent: Number)
    requires InRange(base)
    ensures TameResult(CheckedPow(floats, op, base, exponent))
  {
    hide CheckedPow;
    RawPowerBound(floats, op, base, exponent);
  }

  lemma {:induction false} PowerOfPower(m: nat, i: nat, j: nat)
    ensures Power(Power(m, i), j) == Power(m, i * j)
  {
    if j > 0 {
      PowerOfPower(m, i, j - 1);
      assert i * j == i + i * (j - 1);
      PowerOfSum(m, i, i * (j - 1));
    }
  }

  lemma {:induction false} PowerOfSum(m: nat, i: nat, j: nat)
    ensures Power(m, i + j) == Power(m, i) * Power(m, j)
  {
    if i > 0 {
      PowerOfSum(m, i - 1, j);
      assert Power(m, i + j) == m * Power(m, i + j - 1);
      assert m * (Power(m, i - 1) * Power(m, j)) == (m * Power(m, i - 1)) * Power(m, j);
    }
  }

  /** The bound on raw results is ten to the 216. */
  lemma TameInDecimals()
    ensures Power(MAX_ABS_INT, MAX_POWER_ABS_EXPONENT) == Power(10, 216)
  {
    assert Power(10, 6) == 1_000_000;
    assert Power(10, 18) == MAX_ABS_INT by {
      PowerOfPower(10, 6, 3);
      assert Power(1_000_000, 3) == MAX_ABS_INT;
    }
    PowerOfPower(10, 18, 12);
  }

  /** Whatever becomes of it and whatever floating-point arithmetic answers, the evaluation of an
      expression that passes the node limit never computes an integer beyond the twelfth power of
      the range limit. */
  lemma {:induction false} RawsTame(floats: Floats, e: Expr, v: int)
    requires Nodes(e) <= MAX_AST_NODES && v in Raws(floats, e)
    ensures Tame(v)
  {
    hide Tame, RawBinary, RawCall, RawUnary, InRange;
    match e {
      case Constant(_) =>
      case Name(_) =>
      case UnaryOp(op, operand) =>
        if v in Raws(floats, operand) {
          RawsTame(floats, operand, v);
        } else {
          RawUnaryTame(op, Eval(floats, operand).value);
        }
      case BinOp(op, left, right) =>
        if v in Raws(floats, left) {
          RawsTame(floats, left, v);
        } else if v in Raws(floats, right) {
          RawsTame(floats, right, v);
        } else {
          RawBinaryTame(floats, op, Eval(floats, left).value, Eval(floats, right).value);
        }
      case Call(f, args) =>
        if v in RawsOf(floats, args) {
          RawsOfTame(floats, args, v);
        } else {
          var values := EvalAll(floats, args);
          assert values.Ok? && |values.value| <= NodesOf(args);
          RawCallTame(floats, f, values.value);
        }
    }
  }

  lemma {:induction false} RawsOfTame(floats: Floats, args: seq<Expr>, v: int)
    requires NodesOf(args) <= MAX_AST_NODES && v in RawsOf(floats, args)
    ensures Tame(v)
  {
    hide Tame;
    if v in Raws(floats, args[0]) {
      RawsTame(floats, args[0], v);
    } else {
      RawsOfTame(floats, args[1..], v);
    }
  }
}
