/**
 * The reverse-Polish stack machine: one instruction applied to a stack of
 * numbers (`RpnInstruction::Execute`), a whole program run on a fresh stack
 * (`ExecuteRpn`) and the short text each instruction is shown as
 * (`operator<<`). The stack is a sequence whose LAST element is the top.
 */
module Rpn {
  import opened Numeric

  /** What an instruction, or a whole program, reports. */
  datatype Status = Ok | Underflow | Overflow | Undefined

  datatype BinOp = Add | Subtract | Multiply | Divide | Modulo | Power

  /** The float cells a variable push can point at: the sampled x, or a slider's value. */
  datatype VarRef = ExprX | SliderValue(slot: nat)

  /** Identifies a math-library routine (`sin`, `abs`, ...) held by a function instruction. */
  type FuncRef = nat

  /**
   * One opcode with its operand. `Null` and `Dup` are opcodes the calculator
   * builds but `Execute` has no case for.
   */
  datatype Instr =
    | Null
    | Push(value: real)
    | PushVar(cell: VarRef)
    | Binary(op: BinOp)
    | Negate
    | Function(fn: FuncRef, name: string)
    | Dup

  /**
   * Everything execution reads besides the stack: the current contents of the
   * float cells, what each library routine computes, and `pow`. The routines
   * are left uninterpreted.
   */
  datatype Env = Env(vars: VarRef -> real, call: (FuncRef, real) -> real, pow: (real, real) -> real)

  datatype StepResult = StepResult(status: Status, stack: seq<real>)

  /** The outcome of a whole program: its status and the value left in `resultOut`. */
  datatype Outcome = Outcome(status: Status, result: real)

  /** The opcodes `Execute` has a case for. */
  predicate Handled(i: Instr) {
    !(i.Null? || i.Dup?)
  }

  /** How many stack entries a handled opcode needs. */
  function Arity(i: Instr): nat {
    match i
    case Binary(_) => 2
    case Negate => 1
    case Function(_, _) => 1
    case _ => 0
  }

  /** How much a successful instruction changes the stack height. */
  function Delta(i: Instr): int {
    if Handled(i) then 1 - Arity(i) else 0
  }

  /** The opcodes whose zero check can report `Undefined`. */
  predicate Dividing(op: BinOp) {
    op == Divide || op == Modulo
  }

  /** `x op y`, with `x` the operand popped first (the top). */
  function Apply(op: BinOp, x: real, y: real, env: Env): real
    requires Dividing(op) ==> y != 0.0
  {
    match op
    case Add => x + y
    case Subtract => x - y
    case Multiply => x * y
    case Divide => x / y
    case Modulo => FMod(x, y)
    case Power => env.pow(x, y)
  }

  function Top(s: seq<real>): real
    requires |s| > 0
  {
    s[|s| - 1]
  }

  /** `RpnInstruction::Execute`: one instruction against the stack `s`. */
  function Step(i: Instr, env: Env, s: seq<real>): (r: StepResult)
    ensures r.status != Overflow
    ensures r.status == Underflow <==> Handled(i) && |s| < Arity(i)
    ensures r.status == Undefined <==>
              !Handled(i) || (i.Binary? && Dividing(i.op) && |s| >= 2 && s[|s| - 2] == 0.0)
    ensures r.status == Ok ==>
              |r.stack| == |s| + Delta(i) && r.stack[..|s| - Arity(i)] == s[..|s| - Arity(i)]
    ensures r.status == Underflow || !Handled(i) ==> r.stack == s
    ensures r.status == Undefined && Handled(i) ==> r.stack == s[..|s| - 2]
  {
    match i
    case Push(v) => StepResult(Ok, s + [v])
    case PushVar(c) => StepResult(Ok, s + [env.vars(c)])
    case Binary(op) =>
      if |s| < 2 then StepResult(Underflow, s)
      else
        var x, y, rest := s[|s| - 1], s[|s| - 2], s[..|s| - 2];
        if Dividing(op) && y == 0.0 then StepResult(Undefined, rest)
        else StepResult(Ok, rest + [Apply(op, x, y, env)])
    case Negate =>
      if |s| == 0 then StepResult(Underflow, s)
      else StepResult(Ok, s[..|s| - 1] + [-Top(s)])
    case Function(f, _) =>
      if |s| == 0 then StepResult(Underflow, s)
      else StepResult(Ok, s[..|s| - 1] + [env.call(f, Top(s))])
    case Null => StepResult(Undefined, s)
    case Dup => StepResult(Undefined, s)
  }

  /** Both kinds of push always succeed and put their value on top of an otherwise unchanged stack. */
  lemma PushGrowsByOne(v: real, c: VarRef, env: Env, s: seq<real>)
    ensures Step(Push(v), env, s) == StepResult(Ok, s + [v])
    ensures Step(PushVar(c), env, s) == StepResult(Ok, s + [env.vars(c)])
  {
  }

  /**
   * A binary opcode on `s + [y, x]` pops `x` (the top) and then `y` and pushes
   * `x op y`; a divide or modulo whose `y` is zero reports `Undefined` with
   * both operands already gone.
   */
  lemma BinaryPopsTwoPushesOne(op: BinOp, env: Env, s: seq<real>, y: real, x: real)
    ensures Dividing(op) && y == 0.0 ==> Step(Binary(op), env, s + [y, x]) == StepResult(Undefined, s)
    ensures !(Dividing(op) && y == 0.0) ==>
              Step(Binary(op), env, s + [y, x]) == StepResult(Ok, s + [Apply(op, x, y, env)])
  {
    assert (s + [y, x])[..|s|] == s;
  }

  /** Negation rewrites the top in place. */
  lemma NegateRewritesTop(env: Env, s: seq<real>, t: real)
    ensures Step(Negate, env, s + [t]) == StepResult(Ok, s + [-t])
  {
    assert (s + [t])[..|s|] == s;
  }

  /** A library function rewrites the top in place, whatever its argument: there is no domain check. */
  lemma FunctionRewritesTop(fn: FuncRef, name: string, env: Env, s: seq<real>, t: real)
    ensures Step(Function(fn, name), env, s + [t]) == StepResult(Ok, s + [env.call(fn, t)])
  {
    assert (s + [t])[..|s|] == s;
  }

  /** A program that leaves `v` on top of `s`, followed by `Negate`, leaves `-v` there instead. */
  lemma ThenNegate(p: seq<Instr>, env: Env, s: seq<real>, v: real)
    requires Exec(p, env, s) == StepResult(Ok, s + [v])
    ensures Exec(p + [Negate], env, s) == StepResult(Ok, s + [-v])
  {
    ExecSnoc(p, Negate, env, s);
    NegateRewritesTop(env, s, v);
  }

  /** A program that leaves `v` on top of `s`, followed by a library call, leaves the call's value there instead. */
  lemma ThenFunction(p: seq<Instr>, fn: FuncRef, name: string, env: Env, s: seq<real>, v: real)
    requires Exec(p, env, s) == StepResult(Ok, s + [v])
    ensures Exec(p + [Function(fn, name)], env, s) == StepResult(Ok, s + [env.call(fn, v)])
  {
    ExecSnoc(p, Function(fn, name), env, s);
    FunctionRewritesTop(fn, name, env, s, v);
  }

  /** Net stack growth of a whole program when every instruction succeeds. */
  function Height(prog: seq<Instr>): int {
    if prog == [] then 0 else Delta(prog[0]) + Height(prog[1..])
  }

  /**
   * The loop of `ExecuteRpn`: apply the instructions in order and stop at the
   * first status that is not `Ok`, returning that status and the stack as the
   * failing instruction left it.
   */
  function Exec(prog: seq<Instr>, env: Env, s: seq<real>): (r: StepResult)
    ensures r.status != Overflow
    ensures r.status == Ok ==> |r.stack| == |s| + Height(prog)
    decreases |prog|
  {
    if prog == [] then StepResult(Ok, s)
    else
      var r := Step(prog[0], env, s);
      if r.status != Ok then r else Exec(prog[1..], env, r.stack)
  }

  /** Running `p + q` is running `p`, then (only if `p` succeeded) `q` on the stack it left. */
  lemma {:induction false} ExecAppend(p: seq<Instr>, q: seq<Instr>, env: Env, s: seq<real>)
    ensures Exec(p + q, env, s) ==
              (var r := Exec(p, env, s); if r.status != Ok then r else Exec(q, env, r.stack))
    decreases |p|
  {
    if p == [] {
      assert p + q == q;
    } else {
      assert (p + q)[0] == p[0];
      assert (p + q)[1..] == p[1..] + q;
      var r := Step(p[0], env, s);
      if r.status == Ok {
        ExecAppend(p[1..], q, env, r.stack);
      }
    }
  }

  /** Once a prefix fails, the instructions after it are never executed. */
  lemma ShortCircuit(p: seq<Instr>, q: seq<Instr>, env: Env, s: seq<real>)
    requires Exec(p, env, s).status != Ok
    ensures Exec(p + q, env, s) == Exec(p, env, s)
  {
    ExecAppend(p, q, env, s);
  }

  /** Executing one more instruction after a prefix. */
  lemma ExecSnoc(p: seq<Instr>, i: Instr, env: Env, s: seq<real>)
    ensures Exec(p + [i], env, s) ==
              (var r := Exec(p, env, s); if r.status != Ok then r else Step(i, env, r.stack))
  {
    ExecAppend(p, [i], env, s);
    var r := Exec(p, env, s);
    if r.status == Ok {
      assert [i][1..] == [];
    }
  }

  /**
   * `ExecuteRpn` on a fresh stack. `prior` is what `resultOut` held before the
   * call; it is returned untouched unless the run succeeds.
   */
  function Run(prog: seq<Instr>, env: Env, prior: real): (o: Outcome)
    ensures o.status != Overflow
    ensures o.status != Ok ==> o.result == prior
    ensures o.status == Ok <==> Exec(prog, env, []).status == Ok && Height(prog) > 0
    ensures Exec(prog, env, []).status != Ok ==> o.status == Exec(prog, env, []).status
    ensures Exec(prog, env, []).status == Ok && Height(prog) == 0 ==> o.status == Underflow
    ensures o.status == Ok ==> o.result == Top(Exec(prog, env, []).stack)
    ensures prog == [] ==> o.status == Underflow
  {
    var r := Exec(prog, env, []);
    if r.status != Ok then Outcome(r.status, prior)
    else if |r.stack| == 0 then Outcome(Underflow, prior)
    else Outcome(Ok, Top(r.stack))
  }

  /** `ExecuteRpn` as the source writes it: a loop with an early return. */
  method ExecuteRpn(prog: seq<Instr>, env: Env, resultOut: real) returns (status: Status, result: real)
    ensures Outcome(status, result) == Run(prog, env, resultOut)
  {
    var stack: seq<real> := [];
    var k := 0;
    while k < |prog|
      invariant 0 <= k <= |prog|
      invariant Exec(prog[..k], env, []) == StepResult(Ok, stack)
    {
      var r := Step(prog[k], env, stack);
      ExecPrefix(prog, k, env, stack);
      if r.status != Ok {
        return r.status, resultOut;
      }
      stack := r.stack;
      k := k + 1;
    }
    assert prog[..k] == prog;
    if |stack| == 0 {
      return Underflow, resultOut;
    }
    return Ok, Top(stack);
  }

  /** One more turn of the loop: the prefix grows by one instruction, and a failure there is the program's. */
  lemma ExecPrefix(prog: seq<Instr>, k: nat, env: Env, stack: seq<real>)
    requires k < |prog| && Exec(prog[..k], env, []) == StepResult(Ok, stack)
    ensures Exec(prog[..k + 1], env, []) == Step(prog[k], env, stack)
    ensures Step(prog[k], env, stack).status != Ok ==> Exec(prog, env, []) == Step(prog[k], env, stack)
  {
    assert prog[..k + 1] == prog[..k] + [prog[k]];
    ExecSnoc(prog[..k], prog[k], env, []);
    if Step(prog[k], env, stack).status != Ok {
      assert prog[..k + 1] + prog[k + 1..] == prog;
      ShortCircuit(prog[..k + 1], prog[k + 1..], env, []);
    }
  }

  /** Pushing `a` then `b` and applying `op` yields `b op a`, or `Undefined` when dividing by a zero `a`. */
  lemma RunPair(a: real, b: real, op: BinOp, env: Env, prior: real)
    ensures Dividing(op) && a == 0.0 ==> Run([Push(a), Push(b), Binary(op)], env, prior) == Outcome(Undefined, prior)
    ensures !(Dividing(op) && a == 0.0) ==>
              Run([Push(a), Push(b), Binary(op)], env, prior) == Outcome(Ok, Apply(op, b, a, env))
  {
    ExecPair(a, b, op, env);
    assert [] + [a, b] == [a, b];
    BinaryPopsTwoPushesOne(op, env, [], a, b);
    if Dividing(op) && a == 0.0 {
      assert Exec([Push(a), Push(b), Binary(op)], env, []).status == Undefined;
    } else {
      assert Exec([Push(a), Push(b), Binary(op)], env, []) == StepResult(Ok, [Apply(op, b, a, env)]);
    }
  }

  lemma ExecPair(a: real, b: real, op: BinOp, env: Env)
    ensures Exec([Push(a), Push(b), Binary(op)], env, []) == Step(Binary(op), env, [a, b])
  {
    PushesTwo(a, b, env);
    assert [Push(a), Push(b), Binary(op)] == [Push(a), Push(b)] + [Binary(op)];
    ExecSnoc([Push(a), Push(b)], Binary(op), env, []);
  }

  lemma PushesTwo(a: real, b: real, env: Env)
    ensures Exec([Push(a), Push(b)], env, []) == StepResult(Ok, [a, b])
  {
    assert [Push(a), Push(b)] == [Push(a)] + [Push(b)];
    ExecAppend([Push(a)], [Push(b)], env, []);
    ExecOne(Push(a), env, []);
    ExecOne(Push(b), env, [a]);
    assert [] + [a] == [a];
    assert [a] + [b] == [a, b];
  }

  lemma ExecOne(i: Instr, env: Env, s: seq<real>)
    ensures Exec([i], env, s) == Step(i, env, s)
  {
    assert [i][1..] == [];
  }

  /** The examples `a b -` gives `b - a`; `5 0 /` gives 0 while `0 5 /` is undefined. */
  lemma OperandOrderExamples(a: real, b: real, env: Env, prior: real)
    ensures Run([Push(a), Push(b), Binary(Subtract)], env, prior) == Outcome(Ok, b - a)
    ensures Run([Push(5.0), Push(0.0), Binary(Divide)], env, prior) == Outcome(Ok, 0.0)
    ensures Run([Push(0.0), Push(5.0), Binary(Divide)], env, prior) == Outcome(Undefined, prior)
  {
    RunPair(a, b, Subtract, env, prior);
    RunPair(5.0, 0.0, Divide, env, prior);
    RunPair(0.0, 5.0, Divide, env, prior);
  }

  /** An empty program and a lone `+` both underflow. */
  lemma UnderflowExamples(env: Env, prior: real)
    ensures Run([], env, prior) == Outcome(Underflow, prior)
    ensures Run([Binary(Add)], env, prior) == Outcome(Underflow, prior)
  {
    assert [Binary(Add)][1..] == [];
  }

  /** The cells a program reads. */
  function Reads(prog: seq<Instr>): set<VarRef> {
    set k | 0 <= k < |prog| && prog[k].PushVar? :: prog[k].cell
  }

  /** Two environments that agree on everything a program can observe. */
  ghost predicate Agree(prog: seq<Instr>, e1: Env, e2: Env) {
    (forall c :: c in Reads(prog) ==> e1.vars(c) == e2.vars(c)) &&
    (forall f, t :: e1.call(f, t) == e2.call(f, t)) &&
    (forall x, y :: e1.pow(x, y) == e2.pow(x, y))
  }

  /**
   * No state survives between runs: the outcome depends only on the program,
   * the cells it reads and the library routines.
   */
  lemma {:induction false} ExecFrame(prog: seq<Instr>, e1: Env, e2: Env, s: seq<real>)
    requires Agree(prog, e1, e2)
    ensures Exec(prog, e1, s) == Exec(prog, e2, s)
    decreases |prog|
  {
    if prog != [] {
      if prog[0].PushVar? {
        assert prog[0].cell in Reads(prog);
      }
      assert Step(prog[0], e1, s) == Step(prog[0], e2, s);
      var r := Step(prog[0], e1, s);
      if r.status == Ok {
        forall c | c in Reads(prog[1..])
          ensures c in Reads(prog)
        {
          var k :| 0 <= k < |prog[1..]| && prog[1..][k].PushVar? && prog[1..][k].cell == c;
          assert prog[k + 1] == prog[1..][k];
        }
        ExecFrame(prog[1..], e1, e2, r.stack);
      }
    }
  }

  lemma RunFrame(prog: seq<Instr>, e1: Env, e2: Env, prior: real)
    requires Agree(prog, e1, e2)
    ensures Run(prog, e1, prior) == Run(prog, e2, prior)
  {
    ExecFrame(prog, e1, e2, []);
  }

  /** How the output stream renders a number. */
  type NumberFormat = real -> string

  /**
   * `operator<<`: the text an instruction is shown as. `show` is the stream's
   * rendering of a number. Variable pushes have no case and fall to "???".
   */
  function Label(i: Instr, show: NumberFormat): (r: string)
    ensures i.Push? ==> r == show(i.value)
    ensures i.Function? ==> r == i.name
    ensures i.Binary? || i.Negate? ==> 0 < |r| <= 3 && r != "???"
    ensures i.Null? || i.Dup? || i.PushVar? ==> r == "???"
  {
    match i
    case Push(v) => show(v)
    case Binary(Add) => "+"
    case Binary(Subtract) => "-"
    case Binary(Multiply) => "*"
    case Binary(Divide) => "\U{F6}"
    case Binary(Modulo) => "mod"
    case Binary(Power) => "^"
    case Negate => "\U{F1}"
    case Function(_, name) => name
    case _ => "???"
  }

  /** Operators are told apart by their labels, and no operator is shown as "???". */
  lemma OperatorLabelsDistinct(i: Instr, j: Instr, show: NumberFormat)
    requires i.Binary? || i.Negate?
    requires j.Binary? || j.Negate?
    ensures Label(i, show) == Label(j, show) <==> i == j
    ensures Label(i, show) != "???"
  {
  }
}
