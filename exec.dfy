/** The tree-walking executor (`src/exec.rs`). Statements run in order
    against one variable map that starts empty; a `print` emits the value
    of its expression; the first statement that fails stops the script and
    its diagnostic is the result. Expressions are evaluated against the map
    without changing it, left operand first, and the first failure wins.

    Arithmetic is Rust's `i64` arithmetic with overflow checks, as in a
    debug build: a result outside the `i64` range, a division by zero and
    `i64::MIN / -1` panic, which ends the whole run. A panic is modelled as
    an outcome of its own, distinct from a diagnostic. */
module Exec {
  import opened Locations
  import opened Reporting
  import opened Ast
  import Tokens

  type I64 = Tokens.I64

  predicate InI64(x: int) {
    Tokens.I64_MIN <= x <= Tokens.I64_MAX
  }

  function Abs(x: int): nat {
    if x < 0 then -x else x
  }

  // ----- Arithmetic -----

  /** Rust's integer division: the quotient rounded toward zero. (Dafny's
      own `/` rounds so that the remainder is never negative.) */
  function TruncDiv(a: int, b: int): int
    requires b != 0
  {
    var q := Abs(a) / Abs(b);
    if (a < 0) == (b < 0) then q else -q
  }

  /** The remainder left by a truncating division is smaller than the
      divisor and has the sign of the dividend; the quotient is no larger
      than the dividend. */
  lemma {:induction false} TruncDivRemainder(a: int, b: int)
    requires b != 0
    ensures var r := a - b * TruncDiv(a, b);
      && Abs(r) < Abs(b)
      && (a >= 0 ==> r >= 0)
      && (a <= 0 ==> r <= 0)
    ensures Abs(TruncDiv(a, b)) <= Abs(a)
  {
    var A: int, B: int := Abs(a), Abs(b);
    DivMod(A, B);
    TruncDivProduct(a, b);
  }

  /** Division of sizes: the quotient is at most the dividend, and the
      remainder is below the divisor. */
  lemma DivMod(A: nat, B: nat)
    requires B > 0
    ensures A == B * (A / B) + A % B && 0 <= A % B < B
    ensures 0 <= A / B <= A
  {
    var q0 := A / B;
    MulNonNegative(B - 1, q0);
    assert B * q0 - q0 == (B - 1) * q0;
  }

  /** The divisor times the truncating quotient is the dividend's size, less
      the remainder of the sizes, with the dividend's sign. */
  lemma {:induction false} TruncDivProduct(a: int, b: int)
    requires b != 0
    ensures var m := Abs(b) * (Abs(a) / Abs(b));
      b * TruncDiv(a, b) == if a < 0 then -m else m
  {
    var A: int, B: int := Abs(a), Abs(b);
    var q0 := A / B;
    var q := TruncDiv(a, b);
    if a >= 0 && b > 0 {
    } else if a >= 0 {
      assert b == -B && q == -q0;
      NegTimesNeg(B, q0);
    } else if b > 0 {
      assert q == -q0;
    } else {
      assert b == -B && q == q0;
    }
  }

  lemma NegTimesNeg(x: int, y: int)
    ensures (-x) * (-y) == x * y
  {
  }

  lemma MulNonNegative(x: int, y: int)
    requires x >= 0 && y >= 0
    ensures x * y >= 0
  {
  }

  /** Those two properties pin the quotient down: any `q` whose remainder
      is smaller than the divisor and has the sign of the dividend is the
      truncating quotient. */
  lemma {:induction false} TruncDivUnique(a: int, b: int, q: int)
    requires b != 0
    requires Abs(a - b * q) < Abs(b)
    requires a >= 0 ==> a - b * q >= 0
    requires a <= 0 ==> a - b * q <= 0
    ensures q == TruncDiv(a, b)
  {
    var t := TruncDiv(a, b);
    TruncDivRemainder(a, b);
    var r, s := a - b * q, a - b * t;
    if t != q {
      // the two remainders lie on the same side of 0, both within |b|, yet
      // differ by a non-zero multiple of b
      Distribute(b, t, q);
      MultipleBound(b, t - q);
    }
  }

  lemma Distribute(b: int, t: int, q: int)
    ensures b * t - b * q == b * (t - q)
  {
  }

  /** A non-zero multiple of `b` is at least `b` in size. */
  lemma {:induction false} MultipleBound(b: int, k: int)
    requires k != 0
    ensures Abs(b * k) >= Abs(b)
    decreases if k < 0 then 1 - k else k
  {
    if k > 0 {
      assert b * k == b + b * (k - 1);
      if k > 1 {
        MultipleBound(b, k - 1);
      }
    } else {
      assert b * k == -(b * (-k));
      MultipleBound(b, -k);
    }
  }

  /** Why a division panicked, or an arithmetic result did not fit. */
  datatype Panic = Overflow | DivideByZero

  /** The result of an evaluation: a value, a diagnostic, or a panic. */
  datatype Evaluated = Value(value: I64) | Failed(message: Message) | Panicked(cause: Panic)

  /** The mathematical result of an operator. */
  function Exact(operator: Operator, lhs: int, rhs: int): int
    requires operator == Div ==> rhs != 0
  {
    match operator
    case Add => lhs + rhs
    case Sub => lhs - rhs
    case Mul => lhs * rhs
    case Div => TruncDiv(lhs, rhs)
  }

  /** `lhs + rhs`, `lhs - rhs`, `lhs * rhs` and `lhs / rhs` on `i64`: the
      exact result when it fits, a panic otherwise; never a diagnostic. */
  function Apply(operator: Operator, lhs: I64, rhs: I64): (r: Evaluated)
    ensures !r.Failed?
    ensures r == Panicked(DivideByZero) <==> operator == Div && rhs == 0
    ensures operator != Div || rhs != 0 ==>
              (r.Value? <==> InI64(Exact(operator, lhs, rhs)))
              && (r.Value? ==> r.value == Exact(operator, lhs, rhs))
  {
    if operator == Div && rhs == 0 then Panicked(DivideByZero)
    else
      var x := Exact(operator, lhs, rhs);
      if InI64(x) then Value(x) else Panicked(Overflow)
  }

  /** A division by a non-zero divisor overflows exactly for
      `i64::MIN / -1`. */
  lemma {:induction false} DivOverflow(lhs: I64, rhs: I64)
    requires rhs != 0
    ensures Apply(Div, lhs, rhs) == Panicked(Overflow)
        <==> lhs == Tokens.I64_MIN && rhs == -1
  {
    TruncDivRemainder(lhs, rhs);
    var q := TruncDiv(lhs, rhs);
    if lhs == Tokens.I64_MIN && rhs == -1 {
      TruncDivUnique(lhs, rhs, -(lhs as int));
    } else if rhs == -1 || rhs == 1 {
      TruncDivUnique(lhs, rhs, (lhs as int) * (rhs as int));
    } else {
      // |rhs| >= 2 halves the dividend at least
      DivSmall(lhs, rhs);
    }
  }

  /** Dividing by a divisor of size at least 2 leaves a quotient within the
      `i64` range. */
  lemma {:induction false} DivSmall(lhs: I64, rhs: I64)
    requires Abs(rhs) >= 2
    ensures InI64(TruncDiv(lhs, rhs))
  {
    var A: int, B: int := Abs(lhs), Abs(rhs);
    var q0 := A / B;
    assert B * q0 <= A;
    assert q0 >= 0;
    MulNonNegative(B - 2, q0);
    assert B * q0 - 2 * q0 == (B - 2) * q0;
    assert 2 * q0 <= A <= 0x8000_0000_0000_0000;
  }

  // ----- Expressions -----

  /** The variables an expression reads. */
  function FreeVars(e: Expression): set<string>
    decreases e
  {
    match e.kind
    case Integer(_) => {}
    case Variable(name) => {name}
    case BinaryOperation(lhs, _, rhs) => FreeVars(lhs) + FreeVars(rhs)
    case Error(_) => {}
  }

  /** The diagnostics held by the `Error` nodes of an expression. */
  function ErrorsOf(e: Expression): set<Message>
    decreases e
  {
    match e.kind
    case Integer(_) => {}
    case Variable(_) => {}
    case BinaryOperation(lhs, _, rhs) => ErrorsOf(lhs) + ErrorsOf(rhs)
    case Error(m) => {m}
  }

  /** `exec_expression`: an integer is its value; a variable is its value in
      the map, or an unknown-variable diagnostic at the variable's own
      location; an operation evaluates its left side, then its right side,
      and returns the first failure, or else applies the operator; an
      `Error` node is its diagnostic. A diagnostic is therefore always one
      the expression holds or an unbound variable it reads, and an
      expression that holds none and reads only bound variables never
      yields one. The map is an argument and nothing is returned for it:
      evaluation cannot change it. */
  function ExecExpression(e: Expression, variables: map<string, I64>): (r: Evaluated)
    ensures r.Failed? ==>
              || r.message in ErrorsOf(e)
              || (r.message.UnknownVariable? && r.message.name in FreeVars(e)
                  && r.message.name !in variables)
    ensures ErrorsOf(e) == {} && FreeVars(e) <= variables.Keys ==> !r.Failed?
    decreases e
  {
    match e.kind
    case Integer(i) => Value(i)
    case Variable(name) =>
      if name in variables then Value(variables[name])
      else Failed(UnknownVariable(name, e.location))
    case BinaryOperation(lhs, operator, rhs) =>
      (match ExecExpression(lhs, variables)
       case Value(a) =>
         (match ExecExpression(rhs, variables)
          case Value(b) => Apply(operator, a, b)
          case failure => failure)
       case failure => failure)
    case Error(m) => Failed(m)
  }

  /** Only the variables an expression reads matter to its value. */
  lemma {:induction false} ExecExpressionReadsFreeVars(e: Expression, v1: map<string, I64>, v2: map<string, I64>)
    requires forall x | x in FreeVars(e) :: (x in v1 <==> x in v2) && (x in v1 ==> v1[x] == v2[x])
    ensures ExecExpression(e, v1) == ExecExpression(e, v2)
    decreases e
  {
    match e.kind
    case BinaryOperation(lhs, _, rhs) =>
      ExecExpressionReadsFreeVars(lhs, v1, v2);
      ExecExpressionReadsFreeVars(rhs, v1, v2);
    case _ =>
  }

  // ----- A stack machine as reference semantics -----

  /** Instructions of a stack machine that runs a postfix form of an
      expression strictly from left to right. */
  datatype Instr =
    | Push(value: I64)
    | Load(name: string, location: Location)
    | Raise(message: Message)
    | Op(operator: Operator)

  /** The postfix code of an expression: left operand, right operand,
      operator. */
  function Compile(e: Expression): seq<Instr>
    decreases e
  {
    match e.kind
    case Integer(i) => [Push(i)]
    case Variable(name) => [Load(name, e.location)]
    case BinaryOperation(lhs, operator, rhs) => Compile(lhs) + Compile(rhs) + [Op(operator)]
    case Error(m) => [Raise(m)]
  }

  /** The machine is running with a stack, has halted with a failure, or is
      stuck for want of operands. */
  datatype Machine = Running(stack: seq<I64>) | Halted(result: Evaluated) | Stuck

  /** Runs code one instruction at a time; the first failing instruction
      halts the machine and nothing after it runs. */
  function RunCode(code: seq<Instr>, stack: seq<I64>, variables: map<string, I64>): Machine
    decreases |code|
  {
    if code == [] then Running(stack)
    else
      match code[0]
      case Push(v) => RunCode(code[1..], stack + [v], variables)
      case Load(name, location) =>
        if name in variables then RunCode(code[1..], stack + [variables[name]], variables)
        else Halted(Failed(UnknownVariable(name, location)))
      case Raise(m) => Halted(Failed(m))
      case Op(operator) =>
        if |stack| < 2 then Stuck
        else
          match Apply(operator, stack[|stack| - 2], stack[|stack| - 1])
          case Value(v) => RunCode(code[1..], stack[..|stack| - 2] + [v], variables)
          case failure => Halted(failure)
  }

  /** Running an expression's code pushes its value, or halts with exactly
      the failure the evaluator returns: both evaluate left before right and
      stop at the first failure. */
  lemma {:induction false} CompileCorrect(e: Expression, code: seq<Instr>, stack: seq<I64>,
                                          variables: map<string, I64>)
    ensures RunCode(Compile(e) + code, stack, variables)
         == match ExecExpression(e, variables)
            case Value(v) => RunCode(code, stack + [v], variables)
            case failure => Halted(failure)
    decreases e
  {
    match e.kind
    case Integer(i) =>
      assert (Compile(e) + code)[1..] == code;
    case Variable(name) =>
      assert (Compile(e) + code)[1..] == code;
    case Error(m) =>
    case BinaryOperation(lhs, operator, rhs) =>
      var opCode := [Op(operator)] + code;
      assert Compile(e) + code == Compile(lhs) + (Compile(rhs) + opCode);
      CompileCorrect(lhs, Compile(rhs) + opCode, stack, variables);
      match ExecExpression(lhs, variables) {
        case Value(a) =>
          CompileCorrect(rhs, opCode, stack + [a], variables);
          match ExecExpression(rhs, variables) {
            case Value(b) =>
              var st := stack + [a] + [b];
              assert st[|st| - 2] == a && st[|st| - 1] == b && st[..|st| - 2] == stack;
              assert opCode[1..] == code;
            case _ =>
          }
        case _ =>
      }
  }

  /** The machine started on an empty stack computes what the evaluator
      computes. */
  lemma {:induction false} MachineAgrees(e: Expression, variables: map<string, I64>)
    ensures RunCode(Compile(e), [], variables)
         == match ExecExpression(e, variables)
            case Value(v) => Running([v])
            case failure => Halted(failure)
  {
    CompileCorrect(e, [], [], variables);
    assert Compile(e) + [] == Compile(e);
  }

  // ----- Statements -----

  /** How a run of statements ends: it ran to the end, a statement failed
      with a diagnostic, or the process panicked. */
  datatype Outcome = Completed | Stopped(message: Message) | Aborted(cause: Panic)

  /** What a run of statements does: the values it printed, in order, how it
      ended, and the variable map it ended with. */
  datatype Trace = Trace(printed: seq<I64>, outcome: Outcome, variables: map<string, I64>)

  /** The trace of a statement that failed before printing anything. */
  function Halt(r: Evaluated, variables: map<string, I64>): (t: Trace)
    requires !r.Value?
    ensures t.printed == [] && !t.outcome.Completed?
  {
    Trace([], if r.Failed? then Stopped(r.message) else Aborted(r.cause), variables)
  }

  /** `values` printed before the run `t`. */
  function Prepend(values: seq<I64>, t: Trace): Trace {
    Trace(values + t.printed, t.outcome, t.variables)
  }

  /** The statements from `variables` on: a definition evaluates its value
      against the current map and then binds the name, replacing any earlier
      binding; a print evaluates its value and emits it; an `Error`
      statement stops with its diagnostic without evaluating anything; the
      first failure stops the run. */
  function Run(statements: seq<Statement>, variables: map<string, I64>): Trace
    decreases |statements|
  {
    if statements == [] then Trace([], Completed, variables)
    else
      match statements[0].kind
      case Variable(name, value) =>
        var r := ExecExpression(value, variables);
        if r.Value? then Run(statements[1..], variables[name := r.value])
        else Halt(r, variables)
      case Print(value) =>
        var r := ExecExpression(value, variables);
        if r.Value? then Prepend([r.value], Run(statements[1..], variables))
        else Halt(r, variables)
      case Error(m) => Trace([], Stopped(m), variables)
  }

  /** `execute`: runs a script from an empty variable map, printing the
      value of each print statement as it goes, and returns at the first
      failing statement. */
  method Execute(ast: seq<Statement>) returns (printed: seq<I64>, outcome: Outcome)
    ensures printed == Run(ast, map[]).printed
    ensures outcome == Run(ast, map[]).outcome
  {
    var variables: map<string, I64> := map[];
    printed := [];
    var i := 0;
    while i < |ast|
      invariant 0 <= i <= |ast|
      invariant Run(ast, map[]) == Prepend(printed, Run(ast[i..], variables))
    {
      var statement := ast[i];
      assert ast[i..][0] == statement && ast[i..][1..] == ast[i + 1..];
      match statement.kind {
        case Variable(name, value) =>
          var r := ExecExpression(value, variables);
          if !r.Value? {
            outcome := Halt(r, variables).outcome;
            return;
          }
          variables := variables[name := r.value];
        case Print(value) =>
          var r := ExecExpression(value, variables);
          if !r.Value? {
            outcome := Halt(r, variables).outcome;
            return;
          }
          assert (printed + [r.value]) + Run(ast[i + 1..], variables).printed
              == printed + ([r.value] + Run(ast[i + 1..], variables).printed);
          printed := printed + [r.value];
        case Error(e) =>
          outcome := Stopped(e);
          return;
      }
      i := i + 1;
    }
    outcome := Completed;
  }

  // ----- Properties of a run -----

  /** Running `a + b` runs `a`, and runs `b` from `a`'s final map only when
      `a` completed: after a failure nothing more runs and nothing more is
      printed. */
  lemma {:induction false} RunAppend(a: seq<Statement>, b: seq<Statement>, variables: map<string, I64>)
    ensures Run(a + b, variables)
         == var t := Run(a, variables);
            if t.outcome.Completed? then Prepend(t.printed, Run(b, t.variables)) else t
    decreases |a|
  {
    if a == [] {
      assert a + b == b;
    } else {
      assert (a + b)[0] == a[0] && (a + b)[1..] == a[1..] + b;
      match a[0].kind {
        case Variable(name, value) =>
          var r := ExecExpression(value, variables);
          if r.Value? {
            RunAppend(a[1..], b, variables[name := r.value]);
          }
        case Print(value) =>
          var r := ExecExpression(value, variables);
          if r.Value? {
            RunAppend(a[1..], b, variables);
            var t := Run(a[1..], variables);
            if t.outcome.Completed? {
              assert [r.value] + (t.printed + Run(b, t.variables).printed)
                  == ([r.value] + t.printed) + Run(b, t.variables).printed;
            }
          }
        case Error(_) =>
      }
    }
  }

  /** The number of print statements. */
  function CountPrints(statements: seq<Statement>): nat
    decreases |statements|
  {
    if statements == [] then 0
    else (if statements[0].kind.Print? then 1 else 0) + CountPrints(statements[1..])
  }

  /** The names that definitions bind. */
  function DefinedNames(statements: seq<Statement>): set<string>
    decreases |statements|
  {
    if statements == [] then {}
    else (if statements[0].kind.Variable? then {statements[0].kind.name} else {})
         + DefinedNames(statements[1..])
  }

  /** One value is printed per print statement that runs: all of them when
      the run completes, fewer when it stops early. */
  lemma {:induction false} PrintCount(statements: seq<Statement>, variables: map<string, I64>)
    ensures |Run(statements, variables).printed| <= CountPrints(statements)
    ensures Run(statements, variables).outcome.Completed?
            ==> |Run(statements, variables).printed| == CountPrints(statements)
    decreases |statements|
  {
    if statements != [] {
      match statements[0].kind {
        case Variable(name, value) =>
          var r := ExecExpression(value, variables);
          if r.Value? {
            PrintCount(statements[1..], variables[name := r.value]);
          }
        case Print(value) =>
          PrintCount(statements[1..], variables);
        case Error(_) =>
      }
    }
  }

  /** Bindings are never removed, and the only names bound are the ones the
      statements define; when the run completes, every defined name is
      bound. */
  lemma {:induction false} RunBindings(statements: seq<Statement>, variables: map<string, I64>)
    ensures variables.Keys <= Run(statements, variables).variables.Keys
    ensures Run(statements, variables).variables.Keys <= variables.Keys + DefinedNames(statements)
    ensures Run(statements, variables).outcome.Completed?
            ==> Run(statements, variables).variables.Keys == variables.Keys + DefinedNames(statements)
    decreases |statements|
  {
    if statements != [] {
      match statements[0].kind {
        case Variable(name, value) =>
          var r := ExecExpression(value, variables);
          if r.Value? {
            RunBindings(statements[1..], variables[name := r.value]);
          }
        case Print(value) =>
          RunBindings(statements[1..], variables);
        case Error(_) =>
      }
    }
  }

  /** Defining a name again replaces its value; it is not an error. */
  lemma {:induction false} RedefinitionReplaces(name: string, first: Expression, second: Expression,
                                                l1: Location, l2: Location,
                                                rest: seq<Statement>, variables: map<string, I64>)
    requires ExecExpression(first, variables).Value?
    requires ExecExpression(second, variables[name := ExecExpression(first, variables).value]).Value?
    ensures
      var v2 := ExecExpression(second, variables[name := ExecExpression(first, variables).value]).value;
      Run([Statement(StatementKind.Variable(name, first), l1),
           Statement(StatementKind.Variable(name, second), l2)] + rest, variables)
      == Run(rest, variables[name := v2])
  {
    var v1 := ExecExpression(first, variables).value;
    var v2 := ExecExpression(second, variables[name := v1]).value;
    var s := [Statement(StatementKind.Variable(name, first), l1),
              Statement(StatementKind.Variable(name, second), l2)] + rest;
    assert s[1..][1..] == rest;
    assert variables[name := v1][name := v2] == variables[name := v2];
  }

  // ----- Examples -----

  function Int(i: I64, at: Location): Expression {
    Expression(Integer(i), at)
  }

  function Var(name: string, at: Location): Expression {
    Expression(ExpressionKind.Variable(name), at)
  }

  function Binary(lhs: Expression, operator: Operator, rhs: Expression, at: Location): Expression {
    Expression(BinaryOperation(lhs, operator, rhs), at)
  }

  /** `var x = 5; print x + 1;` prints 6 and binds `x` to 5. */
  lemma {:induction false} PrintSumExample(at: Location)
    ensures Run([Statement(StatementKind.Variable("x", Int(5, at)), at),
                 Statement(Print(Binary(Var("x", at), Add, Int(1, at), at)), at)], map[])
         == Trace([6], Completed, map["x" := 5])
  {
    var s := [Statement(StatementKind.Variable("x", Int(5, at)), at),
              Statement(Print(Binary(Var("x", at), Add, Int(1, at), at)), at)];
    var vars := map["x" := 5];
    assert ExecExpression(Int(5, at), map[]) == Value(5);
    assert ExecExpression(Var("x", at), vars) == Value(5);
    assert Apply(Add, 5, 1) == Value(6);
    assert ExecExpression(Binary(Var("x", at), Add, Int(1, at), at), vars) == Value(6);
    assert Run(s, map[]) == Run(s[1..], vars);
    assert s[1..][1..] == [];
    assert Run(s[1..], vars) == Prepend([6], Run([], vars));
  }

  /** `print y;` with `y` never defined stops with an unknown-variable
      diagnostic at `y`'s location. */
  lemma {:induction false} UnknownVariableExample(at: Location, yAt: Location)
    ensures Run([Statement(Print(Var("y", yAt)), at)], map[])
         == Trace([], Stopped(UnknownVariable("y", yAt)), map[])
  {
  }

  /** `print (0 - 7) / 2;` prints -3: division truncates toward zero. */
  lemma {:induction false} TruncatingDivisionExample(at: Location)
    ensures Run([Statement(Print(Binary(Binary(Int(0, at), Sub, Int(7, at), at), Div, Int(2, at), at)), at)], map[])
         == Trace([-3], Completed, map[])
  {
    TruncDivUnique(-7, 2, -3);
    var minusSeven := Binary(Int(0, at), Sub, Int(7, at), at);
    assert Apply(Sub, 0, 7) == Value(-7);
    assert ExecExpression(minusSeven, map[]) == Value(-7);
    assert Apply(Div, -7, 2) == Value(-3);
    assert ExecExpression(Binary(minusSeven, Div, Int(2, at), at), map[]) == Value(-3);
    var s := [Statement(Print(Binary(minusSeven, Div, Int(2, at), at)), at)];
    assert s[1..] == [];
  }

  /** `print 1 / (1 - 1);` panics: the run aborts. */
  lemma {:induction false} DivideByZeroExample(at: Location)
    ensures Run([Statement(Print(Binary(Int(1, at), Div, Binary(Int(1, at), Sub, Int(1, at), at), at)), at)], map[])
         == Trace([], Aborted(DivideByZero), map[])
  {
    var zero := Binary(Int(1, at), Sub, Int(1, at), at);
    assert Apply(Sub, 1, 1) == Value(0);
    assert ExecExpression(zero, map[]) == Value(0);
    assert ExecExpression(Binary(Int(1, at), Div, zero, at), map[]) == Panicked(DivideByZero);
  }

  /** In `x + <error>` the unknown `x` is reported, not the error node on
      the right: the left operand is evaluated first. */
  lemma {:induction false} LeftFailureWinsExample(m: Message, at: Location)
    ensures ExecExpression(Binary(Var("x", at), Add, Expression(ExpressionKind.Error(m), at), at), map[])
         == Failed(UnknownVariable("x", at))
  {
  }

  /** `print 1; <error>; print 2;` prints 1, then stops with the error's
      diagnostic; the last print never runs. */
  lemma {:induction false} StopsAtErrorExample(m: Message, at: Location)
    ensures Run([Statement(Print(Int(1, at)), at), Statement(StatementKind.Error(m), at),
                 Statement(Print(Int(2, at)), at)], map[])
         == Trace([1], Stopped(m), map[])
  {
    var s := [Statement(Print(Int(1, at)), at), Statement(StatementKind.Error(m), at),
              Statement(Print(Int(2, at)), at)];
    assert s[1..][0] == Statement(StatementKind.Error(m), at);
  }
}
