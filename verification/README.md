# GraphCalc3DS core in Dafny

A model of the expression machine and curve sampler of GraphCalc3DS, a
touchscreen graphing calculator for a handheld console, together with the
small state updates of its main program and its variable slider.

An equation is a sequence of reverse-Polish instructions (`RpnInstruction`).
`Execute` applies one instruction to a stack of numbers and reports
`S_OK`, `S_UNDERFLOW` or `S_UNDEFINED`; `ExecuteRpn` runs a whole equation on
a fresh stack, stopping at the first failure. `drawGraph` evaluates the
equation once per screen column with `exprX` set to that column's x value, and
joins consecutive successful columns by line segments: an undefined column
leaves a gap, an underflow or overflow stops the scan and, for the active equation,
shows an error.

Files and modules:

- `rpn.dfy` (`Rpn`): instructions, `Step` (= `Execute`), `Exec`/`Run`
  (= `ExecuteRpn`, also written as the loop `ExecuteRpn`), `Label`
  (= `operator<<`). The stack is a `seq<real>` whose last element is the top.
  The `float *` a variable push holds is a `VarRef` looked up in `Env.vars`;
  library functions and `pow` are uninterpreted functions in `Env`; C's `fmod`
  is modelled exactly on reals (`Numeric.FMod`).
- `rpn_meaning.dfy` (`RpnMeaning`): an expression-tree reading of programs
  and the theorem that running compiled code computes the tree's value, or
  `Undefined` where a divisor is zero.
- `graph.dfy` (`Graph`): `drawGraph` as a loop over the 400 column statuses,
  with segments as pairs of column indices, and the column statuses themselves
  as runs of the equation with `exprX` bound to the column's x value.
- `calc.dfy` (`Calc`): `moveCursor`, the wrap-around of `plotIndex` and
  `cgridIndex`, `addInstruction`, clear, backspace and keypad replies, and the
  equation transcript `UpdateEquationDisplay`.
- `slider.dfy` (`SliderControl`): the slider's constructors, touch clamp and
  `SetRange`.
- `numeric.dfy` (`Numeric`): clamp, truncation and `fmod`; `optional.dfy`: `Option`.

Points where `main.cpp` expects more than `source/RpnInstruction.cpp` provides;
the model follows the latter:

- `main.cpp` builds function instructions with a domain argument (for example
  `sqrt` with `~D_NEGATIVE` and `ln` with `D_POSITIVE`) and binds a `dup` key to
  `OP_DUP` (`source/main.cpp:308`, `:316`, `:318`). `RpnInstruction.cpp` contains
  neither the constructor taking a domain nor a case for `OP_DUP` or `OP_NULL`
  in `Execute`: `Execute` applies a function to any argument, and both opcodes
  fall to the default, which reports `S_UNDEFINED` with the stack untouched. So
  `Function` carries no domain.
- `main.cpp` gives the variable push the name `x`, but `operator<<` has no case
  for `OP_PUSHVAR`, so a variable push is printed as `???`. Division is printed
  as the byte `0xF6` and negation as `0xF1`.

## Model

| member | source | states |
|---|---|---|
| `Rpn.Step` | source/RpnInstruction.cpp:28-130 | never `Overflow`; `Underflow` exactly when a handled opcode has fewer entries than it needs, and then the stack is unchanged; `Undefined` exactly for opcodes without a case (stack unchanged) or a divide/modulo whose earlier-pushed operand `y` is zero (both operands already popped); on success the height changes by one minus the arity and every entry below the operands is kept |
| `Rpn.PushGrowsByOne` | source/RpnInstruction.cpp:31-36 | a constant or variable push always succeeds and puts the value, or the cell's current value, on top of the unchanged stack |
| `Rpn.BinaryPopsTwoPushesOne` | source/RpnInstruction.cpp:37-110 | on `s + [y, x]` a binary opcode pushes `x op y` onto `s` (top operand first); divide and modulo with `y == 0` leave `s` and report `Undefined` |
| `Rpn.NegateRewritesTop` | source/RpnInstruction.cpp:111-117 | negation replaces only the top with its opposite and never fails on a non-empty stack |
| `Rpn.FunctionRewritesTop` | source/RpnInstruction.cpp:118-126 | a library function replaces only the top with its value there, for every argument: there is no domain check |
| `Rpn.Exec` | source/RpnInstruction.cpp:172-177 | running instructions in order never reports overflow; when all succeed the stack height grows by the program's net effect |
| `Rpn.ExecAppend` | source/RpnInstruction.cpp:172-177 | running `p + q` is running `p` and, only if it succeeded, `q` on the stack `p` left |
| `Rpn.ShortCircuit` | source/RpnInstruction.cpp:173-176 | after the first failing instruction nothing later is executed: the status and stack are those of the failing prefix |
| `Rpn.Run` | source/RpnInstruction.cpp:168-185 | `ExecuteRpn` starts from an empty stack and never reports overflow; a failing instruction's status is the run's status; a run that succeeds with an empty stack underflows, as does an empty program; on success `resultOut` is the top of the final stack, and on failure it is unchanged |
| `Rpn.ExecuteRpn` | source/RpnInstruction.cpp:168-185 | the loop with early return computes the same status and `resultOut` as `Run` |
| `Rpn.RunPair` | source/RpnInstruction.cpp:37-110 | the program `a b op` yields `b op a`, or `Undefined` when dividing or taking modulo with `a == 0` |
| `Rpn.OperandOrderExamples` | source/RpnInstruction.cpp:48-84 | `a b -` gives `b - a`; `5 0 ÷` gives 0 while `0 5 ÷` is undefined |
| `Rpn.UnderflowExamples` | source/RpnInstruction.cpp:179-180 | an empty program and a lone `+` both report underflow |
| `Rpn.RunFrame` | source/RpnInstruction.cpp:168-171 | the outcome depends only on the program, the cells it reads and the library routines: no state survives between runs |
| `Rpn.OperatorLabelsDistinct` | source/RpnInstruction.cpp:138-158 | the operator labels are pairwise distinct and none is `???` |
| `Rpn.Label` | source/RpnInstruction.cpp:132-165 | a constant is shown as the stream renders it, a function by its name, every operator by a short text other than `???`, and variable pushes, `OP_NULL` and `OP_DUP` as `???` |
| `Numeric.FMod` | source/RpnInstruction.cpp:96 | `fmod`'s remainder is smaller than the divisor in magnitude, has the sign of the dividend, and differs from it by a whole multiple of the divisor |
| `RpnMeaning.ExecCompiled` | source/RpnInstruction.cpp:28-130 | the reverse-Polish code of an expression, run on any stack, pushes exactly the expression's value, or reports `Undefined` where the expression divides by zero; it never underflows |
| `RpnMeaning.RunCompiled` | source/RpnInstruction.cpp:168-185 | `ExecuteRpn` on compiled code returns the expression's value, or `Undefined` with `resultOut` unchanged |
| `RpnMeaning.FunctionHasNoDomainCheck` | source/RpnInstruction.cpp:119-126 | `t f` succeeds with `f(t)` for every `t` |
| `Graph.DrawGraph` | source/main.cpp:49-79 | the segments are exactly the joins `x-1 → x` with `0 < x`, both columns `S_OK` and no underflow or overflow at or before `x`, each once and in increasing column order, none reaching the column where the scan stopped; an error text appears exactly when the active equation stopped the scan, naming overflow or underflow |
| `Graph.WithX` | source/main.cpp:56 | the environment for a column: `exprX` holds the column's x value; every other cell and the library routines (`call`, `pow`) are unchanged |
| `Graph.ColumnsUniform` | source/main.cpp:54-58 | an equation that never pushes `exprX` has the same status in every column |
| `Graph.ConstantEquationAllOrNothing` | source/main.cpp:54-74 | an equation without `x` is drawn either as joins across all of columns 1..399 or not at all |
| `Graph.StopAt` | source/main.cpp:63-72 | the scan stops at the first underflow or overflow column; every column before it is neither |
| `Graph.Columns` | source/main.cpp:54-58 | one status per screen column, each the equation run with `exprX` set to that column's x value; none is an overflow |
| `Graph.ColumnsNeverOverflow` | source/main.cpp:63-67 | the overflow branch of the sampler is never taken: no column reports overflow |
| `Graph.EmptyEquationDrawsNothing` | source/main.cpp:68-72 | an empty equation stops at column 0 with the underflow error and joins nothing |
| `Graph.SingleGapSplitsCurve` | source/main.cpp:73-74 | a single interior undefined column removes only the joins into it and into the next column; scanning continues |
| `Graph.AllDefinedIsContinuous` | source/main.cpp:61-62 | when every column succeeds all of columns 1..399 are joined |
| `Calc.MoveCursor` | source/main.cpp:81-94 | the cursor ends in [0,399] × [0,239]; a sum inside the screen is kept exactly, one below is set to 0 and one above to the edge |
| `Calc.CursorStepUndone` | source/main.cpp:81-94 | an on-screen step is undone by the opposite step |
| `Calc.Cycle` | source/main.cpp:167-170 | the wrapped index stays in [0, count) and equals the stepped index modulo count |
| `Calc.CycleInverse` | source/main.cpp:164-170 | stepping up then down (or down then up) returns to the same index |
| `Calc.CycleOrbit` | source/main.cpp:164-170 | repeated steps visit the following indices, wrapping once, and `count` steps return to the start |
| `Calc.SelectPlot` | source/main.cpp:157-172 | entered only when up or down was pressed without X: up selects the previous slot and down the next, cyclically among four; equations are unchanged and number entry ends |
| `Calc.SelectGrid` | source/main.cpp:181-189 | left/right move `cgridIndex` cyclically among the grids, staying in range |
| `Calc.AddInstruction` | source/main.cpp:96-103 | exactly one instruction is appended to the active slot, other slots are untouched and number entry ends |
| `Calc.Clear` | source/main.cpp:336-338 | only the active slot is emptied and number entry ends |
| `Calc.NumpadKey` | source/main.cpp:349-365 | backspace outside number entry removes exactly the last instruction, or nothing from an empty slot; other keys overwrite the last instruction or append one as the keypad answers; only the active slot changes and a typed number always has an instruction to stand in for |
| `Calc.UpdateEquationDisplay` | source/main.cpp:250-268 | the transcript is every label followed by a space, in order; during number entry the last instruction is left out and the typed text appended |
| `Calc.SpacedAppend` | source/main.cpp:256-258 | the transcript of a concatenation is the concatenation of the transcripts |
| `Calc.AddShowsLabel` | source/main.cpp:96-102 | after `addInstruction` the display is the old slot's transcript followed by the new label and a space |
| `Calc.BackspaceDropsLabel` | source/main.cpp:350-353 | backspace outside number entry removes exactly the last label and its space from the display |
| `Calc.EntryReplacesLastInDisplay` | source/main.cpp:360-361 | while a number is typed, overwriting its instruction changes only the typed text shown |
| `SliderControl.DefaultSlider` | source/Slider.cpp:9-14 | value 0 in the range 0 to 1 |
| `SliderControl.RangeSlider` | source/Slider.cpp:16-21 | the value starts at `min`, bounds kept as given; the slider is in range exactly when `min <= max` |
| `SliderControl.TouchingAnywhere` | source/Slider.cpp:23-28 | bounds unchanged; the value lands in [min, max] whenever `min <= max`; an interpolated value inside the range is kept, one below becomes `min`, one above `max` |
| `SliderControl.TouchingInside` | source/Slider.cpp:39-43 | a touch inside the bar keeps the bounds and sets the value to the interpolated one clamped into them: kept inside, `min` below, `max` above; in range whenever `min <= max` |
| `SliderControl.TouchingOutside` | source/Slider.cpp:45-49 | a drag that has left the bar clamps the same way: bounds kept, value interpolated then clamped, in range whenever `min <= max` |
| `SliderControl.TouchIdempotent` | source/Slider.cpp:23-28 | touching the same place again changes nothing, whatever the order of the bounds |
| `SliderControl.TouchForgetsValue` | source/Slider.cpp:23-28 | a touch's result depends only on the bounds and the column: not on the old value, not on the row |
| `SliderControl.SetRange` | source/Slider.cpp:51-56 | `min <= max` afterwards, the bounds are the two arguments, and the value is unchanged |
| `SliderControl.GetMinimum` | source/Slider.cpp:58-61 | the stored lower bound: at most the value when in range, and the only number that, given to `SetRange` with the stored upper bound, yields the same slider as the stored bounds (`GettersDetermined`) |
| `SliderControl.GetMaximum` | source/Slider.cpp:63-66 | the stored upper bound: at least the value when in range, and the only number that, given to `SetRange` with the stored lower bound, yields the same slider as the stored bounds (`GettersDetermined`) |
| `SliderControl.SetRangeSymmetric` | source/Slider.cpp:51-66 | argument order does not matter; `GetMinimum` and `GetMaximum` report the smaller and the larger argument |
| `SliderControl.TouchAfterSetRange` | source/Slider.cpp:23-56 | after `SetRange` any touch leaves the value inside the range |

## Left out

- Drawing and console I/O: `sf2d_*`/`sftd_*` calls, fonts, `drawAxes`, `Slider::Draw` and the main input/render loop (`source/main.cpp:105-248`), apart from the index and cursor updates modelled above. Which buttons are held (X, Y, touch) only selects between those updates.
- The viewport (`ViewWindow`: `GetScreenCoords`, `GetGraphCoords`, `Pan`, `ZoomIn`, `ZoomOut`) and `Interpolate`: their bodies are not part of this model. The column-to-x mapping is the parameter `gx` of `Graph.Columns`, and `Interpolate` is a parameter of the slider touches.
- Graph.DrawGraph: segments are pairs of column indices; the screen points they join are not modelled.
- Graph.Columns: the uninitialised `y` passed as `resultOut` is modelled as 0; the status never depends on it.
- Floating point: numbers are exact reals. Rounding of sums, `pow`, the library functions (`sin`, `log`, ...), NaN and infinities are not modelled; `pow` and the functions are uninterpreted. The trace-snap arithmetic (`source/main.cpp:218-219`) is left out for the same reason.
- Rpn.Label: the text of a number literal (`os << inst.value`) is the parameter `show`.
- Domain-restricted functions, `OP_DUP` semantics and the two- and three-argument constructors used by `main.cpp` (`source/main.cpp:111`, `:308`, `:316`, `:318`): no implementation of them is in `source/RpnInstruction.cpp`. Variable pushes carry no label.
- SliderControl.TouchingAnywhere: the bar width recorded by the last `Slider::Draw` (`source/Slider.cpp:32`) is the parameter `width`; the drawing itself is not modelled.
- `NumpadController`: its reply to a key press and whether it is typing afterwards are inputs; `Reset` is taken to end number entry.
- Calc.UpdateEquationDisplay: requires an instruction to exist while a number is typed; with an empty slot the source's unsigned `--count` would wrap around. `Calc.State.Valid` records that every modelled edit keeps this true.
- Calc.NumpadKey: requires a non-empty slot when the keypad asks to overwrite the last instruction, since `back()` of an empty vector is undefined.
- Trace mode (`source/main.cpp:214-231`), the ALT clear that resets the viewport (`source/main.cpp:333-334`) and the initial equation `x sin` (`source/main.cpp:111-112`).
- Touch routing in `ControlGrid`, the base class `Control` whose `TouchingInside`/`TouchingOutside` the slider calls first, and the control-grid construction (`SetUpMainControlGrid`, `SetUpVarsControlGrid`): user-interface plumbing whose bodies are not part of this model.
- `Slider::SetMinimum` and `Slider::SetMaximum`: not defined in `source/Slider.cpp`.
- `S_OVERFLOW`: kept as a status because the sampler tests for it, but no instruction produces it.
