/**
 * What an instruction sequence means. An expression tree is read the way the
 * stack machine combines operands (`x op y`, `x` the later-pushed operand), and
 * compiling a tree pushes `y`'s code, then `x`'s, then the operator: the order
 * in which keypad entry appends instructions. The theorem here is that running
 * compiled code gives exactly the tree's value, or `Undefined` where the tree
 * divides by zero; so the interpreter is checked against an independent
 * reading of its programs.
 */
module RpnMeaning {
  import opened Optional
  import opened Rpn

  datatype Expr =
    | Lit(value: real)
    | Ref(cell: VarRef)
    | Bin(op: BinOp, x: Expr, y: Expr)
    | Neg(arg: Expr)
    | Call(fn: FuncRef, name: string, arg: Expr)

  /** The value of an expression; `None` where a divide or modulo meets a zero divisor. */
  function Eval(e: Expr, env: Env): Option<real> {
    match e
    case Lit(v) => Some(v)
    case Ref(c) => Some(env.vars(c))
    case Bin(op, x, y) =>
      (match (Eval(x, env), Eval(y, env))
       case (Some(vx), Some(vy)) =>
         if Dividing(op) && vy == 0.0 then None else Some(Apply(op, vx, vy, env))
       case _ => None)
    case Neg(a) =>
      (match Eval(a, env)
       case Some(v) => Some(-v)
       case None => None)
    case Call(f, _, a) =>
      (match Eval(a, env)
       case Some(v) => Some(env.call(f, v))
       case None => None)
  }

  /** Reverse-Polish code for an expression: operands in push order, operator last. */
  function Compile(e: Expr): (prog: seq<Instr>)
    ensures Height(prog) == 1
  {
    match e
    case Lit(v) => [Push(v)]
    case Ref(c) => [PushVar(c)]
    case Bin(op, x, y) =>
      HeightAppend3(Compile(y), Compile(x), [Binary(op)]);
      Compile(y) + Compile(x) + [Binary(op)]
    case Neg(a) =>
      HeightAppend3(Compile(a), [], [Negate]);
      Compile(a) + [Negate]
    case Call(f, name, a) =>
      HeightAppend3(Compile(a), [], [Function(f, name)]);
      Compile(a) + [Function(f, name)]
  }

  lemma {:induction false} HeightAppend(p: seq<Instr>, q: seq<Instr>)
    ensures Height(p + q) == Height(p) + Height(q)
    decreases |p|
  {
    if p == [] {
      assert p + q == q;
    } else {
      assert (p + q)[1..] == p[1..] + q;
      HeightAppend(p[1..], q);
    }
  }

  lemma HeightAppend3(p: seq<Instr>, q: seq<Instr>, r: seq<Instr>)
    ensures Height(p + q + r) == Height(p) + Height(q) + Height(r)
    ensures Height(p + r) == Height(p) + Height(r)
  {
    HeightAppend(p, q);
    HeightAppend(p + q, r);
    HeightAppend(p, r);
  }

  /**
   * Running compiled code on any stack pushes exactly the expression's value,
   * leaving what was below untouched; where the expression is undefined the run
   * reports `Undefined` (never `Underflow`).
   */
  lemma {:induction false} ExecCompiled(e: Expr, env: Env, s: seq<real>)
    ensures Eval(e, env).Some? ==> Exec(Compile(e), env, s) == StepResult(Ok, s + [Eval(e, env).value])
    ensures Eval(e, env).None? ==> Exec(Compile(e), env, s).status == Undefined
    decreases e, 2
  {
    match e
    case Lit(v) =>
      ExecOne(Push(v), env, s);
    case Ref(c) =>
      ExecOne(PushVar(c), env, s);
    case Bin(op, x, y) =>
      BinaryCompiled(op, x, y, env, s);
    case Neg(_) =>
      NegateCompiled(e, env, s);
    case Call(_, _, _) =>
      CallCompiled(e, env, s);
  }

  /** A binary node: the code of `y`, then of `x`, then the operator. */
  lemma {:induction false} BinaryCompiled(op: BinOp, x: Expr, y: Expr, env: Env, s: seq<real>)
    ensures var e := Bin(op, x, y);
            (Eval(e, env).Some? ==> Exec(Compile(e), env, s) == StepResult(Ok, s + [Eval(e, env).value])) &&
            (Eval(e, env).None? ==> Exec(Compile(e), env, s).status == Undefined)
    decreases Bin(op, x, y), 1
  {
    var py, px := Compile(y), Compile(x);
    assert Compile(Bin(op, x, y)) == py + (px + [Binary(op)]);
    ExecAppend(py, px + [Binary(op)], env, s);
    ExecCompiled(y, env, s);
    if Eval(y, env).Some? {
      OperatorAfterOperand(op, x, Eval(y, env).value, env, s);
    }
  }

  /** With `y`'s value already pushed: the code of `x`, then the operator. */
  lemma {:induction false} OperatorAfterOperand(op: BinOp, x: Expr, vy: real, env: Env, s: seq<real>)
    ensures Eval(x, env).Some? && !(Dividing(op) && vy == 0.0) ==>
              Exec(Compile(x) + [Binary(op)], env, s + [vy]) == StepResult(Ok, s + [Apply(op, Eval(x, env).value, vy, env)])
    ensures Eval(x, env).Some? && Dividing(op) && vy == 0.0 ==>
              Exec(Compile(x) + [Binary(op)], env, s + [vy]).status == Undefined
    ensures Eval(x, env).None? ==> Exec(Compile(x) + [Binary(op)], env, s + [vy]).status == Undefined
    decreases x, 3
  {
    ExecSnoc(Compile(x), Binary(op), env, s + [vy]);
    ExecCompiled(x, env, s + [vy]);
    if Eval(x, env).Some? {
      var vx := Eval(x, env).value;
      assert s + [vy] + [vx] == s + [vy, vx];
      BinaryPopsTwoPushesOne(op, env, s, vy, vx);
    }
  }

  /** A negation node: the argument's code, then `Negate`. */
  lemma {:induction false} NegateCompiled(e: Expr, env: Env, s: seq<real>)
    requires e.Neg?
    ensures Eval(e, env).Some? ==> Exec(Compile(e), env, s) == StepResult(Ok, s + [Eval(e, env).value])
    ensures Eval(e, env).None? ==> Exec(Compile(e), env, s).status == Undefined
    decreases e, 1
  {
    assert Compile(e) == Compile(e.arg) + [Negate];
    ExecCompiled(e.arg, env, s);
    if Eval(e.arg, env).Some? {
      ThenNegate(Compile(e.arg), env, s, Eval(e.arg, env).value);
    } else {
      ShortCircuit(Compile(e.arg), [Negate], env, s);
    }
  }

  /** A library call node: the argument's code, then the function opcode. */
  lemma {:induction false} CallCompiled(e: Expr, env: Env, s: seq<real>)
    requires e.Call?
    ensures Eval(e, env).Some? ==> Exec(Compile(e), env, s) == StepResult(Ok, s + [Eval(e, env).value])
    ensures Eval(e, env).None? ==> Exec(Compile(e), env, s).status == Undefined
    decreases e, 1
  {
    assert Compile(e) == Compile(e.arg) + [Function(e.fn, e.name)];
    ExecCompiled(e.arg, env, s);
    if Eval(e.arg, env).Some? {
      ThenFunction(Compile(e.arg), e.fn, e.name, env, s, Eval(e.arg, env).value);
    } else {
      ShortCircuit(Compile(e.arg), [Function(e.fn, e.name)], env, s);
    }
  }

  /** `ExecuteRpn` on compiled code returns the expression's value, or `Undefined` leaving `resultOut` alone. */
  lemma RunCompiled(e: Expr, env: Env, prior: real)
    ensures Run(Compile(e), env, prior) ==
              match Eval(e, env)
              case Some(v) => Outcome(Ok, v)
              case None => Outcome(Undefined, prior)
  {
    ExecCompiled(e, env, []);
  }

  /** `x sqrt` style programs: a library function never reports `Undefined`, whatever its argument. */
  lemma FunctionHasNoDomainCheck(f: FuncRef, name: string, t: real, env: Env, prior: real)
    ensures Run([Push(t), Function(f, name)], env, prior) == Outcome(Ok, env.call(f, t))
  {
    RunCompiled(Call(f, name, Lit(t)), env, prior);
  }
}
