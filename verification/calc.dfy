/**
 * The calculator state kept by `main.cpp` apart from drawing: four equation
 * slots, the active slot (`plotIndex`), the active control grid
 * (`cgridIndex`), the trace cursor, and whether the numeric keypad is in the
 * middle of typing a number. The keypad controller itself is opaque: what it
 * answers to a key press is an input here.
 */
module Calc {
  import opened Numeric
  import opened Rpn

  const PlotCount := 4

  /** The cursor moves over the 400 by 240 top screen. */
  const CursorMaxX := 399.0
  const CursorMaxY := 239.0

  /** Character the keypad's backspace key sends. */
  const Backspace: char := 8 as char

  /** What `NumpadController::KeyPressed` answers: overwrite the last instruction, or append. */
  datatype Reply = Reply(replaceLast: bool, inst: Instr)

  /** The main program's equation state: the four plot slots, the active one, and whether a number is being typed. */
  datatype State = State(equations: seq<seq<Instr>>, plotIndex: int, entryInProgress: bool) {

    /**
     * Four slots, an active one among them, and a number being typed only
     * when there is an instruction for it to be shown in place of.
     */
    predicate Valid() {
      |equations| == PlotCount && 0 <= plotIndex < PlotCount &&
      (entryInProgress ==> |equations[plotIndex]| > 0)
    }

    function Active(): seq<Instr>
      requires Valid()
    {
      equations[plotIndex]
    }
  }

  /** `c'` differs from `c` at most in the active slot's instructions and the keypad flag. */
  predicate OnlyActiveChanged(c: State, c': State)
    requires c.Valid() && c'.Valid()
  {
    c'.plotIndex == c.plotIndex &&
    forall p :: 0 <= p < PlotCount && p != c.plotIndex ==> c'.equations[p] == c.equations[p]
  }

  function WithActive(c: State, eq: seq<Instr>, entryInProgress: bool): State
    requires c.Valid()
  {
    c.(equations := c.equations[c.plotIndex := eq], entryInProgress := entryInProgress)
  }

  /** `moveCursor`: add the step, then clamp each axis to the screen. */
  function MoveCursor(cursorX: real, cursorY: real, dx: real, dy: real): (r: (real, real))
    ensures 0.0 <= r.0 <= CursorMaxX && 0.0 <= r.1 <= CursorMaxY
    ensures 0.0 <= cursorX + dx <= CursorMaxX ==> r.0 == cursorX + dx
    ensures 0.0 <= cursorY + dy <= CursorMaxY ==> r.1 == cursorY + dy
    ensures cursorX + dx < 0.0 ==> r.0 == 0.0
    ensures CursorMaxX < cursorX + dx ==> r.0 == CursorMaxX
    ensures cursorY + dy < 0.0 ==> r.1 == 0.0
    ensures CursorMaxY < cursorY + dy ==> r.1 == CursorMaxY
  {
    (Clamp(cursorX + dx, 0.0, CursorMaxX), Clamp(cursorY + dy, 0.0, CursorMaxY))
  }

  /** A step that stays on screen is undone by the opposite step. */
  lemma CursorStepUndone(cursorX: real, cursorY: real, dx: real, dy: real)
    requires 0.0 <= cursorX <= CursorMaxX && 0.0 <= cursorY <= CursorMaxY
    requires 0.0 <= cursorX + dx <= CursorMaxX && 0.0 <= cursorY + dy <= CursorMaxY
    ensures var p := MoveCursor(cursorX, cursorY, dx, dy); MoveCursor(p.0, p.1, -dx, -dy) == (cursorX, cursorY)
  {
  }

  /**
   * The index update used for `plotIndex` and `cgridIndex`: decrement and/or
   * increment, then send -1 to the last index and `count` to 0.
   */
  function Cycle(index: int, dec: bool, inc: bool, count: int): (r: int)
    requires 0 <= index < count
    ensures 0 <= r < count
    ensures r == (index - (if dec then 1 else 0) + (if inc then 1 else 0)) % count
  {
    var i := index - (if dec then 1 else 0) + (if inc then 1 else 0);
    if i < 0 then count - 1 else if i >= count then 0 else i
  }

  /** Stepping one way and then the other returns to the same index. */
  lemma CycleInverse(index: int, count: int)
    requires 0 <= index < count
    ensures Cycle(Cycle(index, true, false, count), false, true, count) == index
    ensures Cycle(Cycle(index, false, true, count), true, false, count) == index
  {
  }

  /**
   * Up to `count` steps in one direction walk through the following indices,
   * wrapping once past the last; after exactly `count` steps the index is back.
   */
  lemma {:induction false} CycleOrbit(index: int, count: int, n: nat)
    requires 0 <= index < count && n <= count
    ensures CycleN(index, count, n) == if index + n < count then index + n else index + n - count
    ensures n == count ==> CycleN(index, count, n) == index
  {
    if n > 0 {
      CycleOrbit(index, count, n - 1);
    }
  }

  /** `n` upward steps from `index`. */
  function CycleN(index: int, count: int, n: nat): (r: int)
    requires 0 <= index < count
    ensures 0 <= r < count
  {
    if n == 0 then index else Cycle(CycleN(index, count, n - 1), false, true, count)
  }

  /** Up or down pressed on the pad without X held: the keypad is reset; up selects the previous slot, down the next. */
  function SelectPlot(c: State, up: bool, down: bool): (c': State)
    requires c.Valid() && (up || down)
    ensures c'.Valid()
    ensures c'.equations == c.equations && !c'.entryInProgress
    ensures c'.plotIndex == (c.plotIndex - (if up then 1 else 0) + (if down then 1 else 0)) % PlotCount
  {
    c.(plotIndex := Cycle(c.plotIndex, up, down, PlotCount), entryInProgress := false)
  }

  /** Left/right on the pad: the next or previous control grid, among `count` grids. */
  function SelectGrid(cgridIndex: int, left: bool, right: bool, count: int): (r: int)
    requires 0 <= cgridIndex < count
    ensures 0 <= r < count
    ensures r == (cgridIndex - (if left then 1 else 0) + (if right then 1 else 0)) % count
  {
    Cycle(cgridIndex, left, right, count)
  }

  /** `addInstruction`: end any number entry and append to the active slot. */
  function AddInstruction(c: State, inst: Instr): (c': State)
    requires c.Valid()
    ensures c'.Valid() && OnlyActiveChanged(c, c')
    ensures c'.Active() == c.Active() + [inst]
    ensures !c'.entryInProgress
  {
    WithActive(c, c.Active() + [inst], false)
  }

  /** The clear key (without ALT): empty the active slot only and end any number entry. */
  function Clear(c: State): (c': State)
    requires c.Valid()
    ensures c'.Valid() && OnlyActiveChanged(c, c')
    ensures c'.Active() == [] && !c'.entryInProgress
  {
    WithActive(c, [], false)
  }

  /**
   * A keypad key (digit, point, sign or backspace). Backspace while no number
   * is being typed drops the last instruction, if any; every other press goes
   * to the keypad controller, whose `reply` overwrites or extends the active
   * slot, and which is typing a number afterwards exactly when `typingAfter`.
   */
  function NumpadKey(c: State, key: char, reply: Reply, typingAfter: bool): (c': State)
    requires c.Valid()
    requires !(key == Backspace && !c.entryInProgress) && reply.replaceLast ==> |c.Active()| > 0
    ensures c'.Valid() && OnlyActiveChanged(c, c')
    ensures key == Backspace && !c.entryInProgress ==>
              !c'.entryInProgress &&
              (|c.Active()| == 0 ==> c'.Active() == []) &&
              (|c.Active()| > 0 ==> c'.Active() + [c.Active()[|c.Active()| - 1]] == c.Active())
    ensures !(key == Backspace && !c.entryInProgress) ==>
              c'.entryInProgress == typingAfter &&
              (reply.replaceLast ==>
                 |c'.Active()| == |c.Active()| &&
                 c'.Active()[..|c.Active()| - 1] == c.Active()[..|c.Active()| - 1] &&
                 c'.Active()[|c.Active()| - 1] == reply.inst) &&
              (!reply.replaceLast ==> c'.Active() == c.Active() + [reply.inst])
  {
    var eq := c.Active();
    if key == Backspace && !c.entryInProgress then
      if |eq| > 0 then WithActive(c, eq[..|eq| - 1], false) else c
    else if reply.replaceLast then
      WithActive(c, eq[..|eq| - 1] + [reply.inst], typingAfter)
    else
      WithActive(c, eq + [reply.inst], typingAfter)
  }

  /** Each label followed by one space, in program order. */
  function Spaced(eq: seq<Instr>, show: NumberFormat): string {
    if eq == [] then "" else Label(eq[0], show) + " " + Spaced(eq[1..], show)
  }

  /** The text `UpdateEquationDisplay` shows for a slot, given the keypad's partial entry. */
  function EquationText(eq: seq<Instr>, entryInProgress: bool, entry: string, show: NumberFormat): string
    requires entryInProgress ==> |eq| > 0
  {
    if entryInProgress then Spaced(eq[..|eq| - 1], show) + entry else Spaced(eq, show)
  }

  /**
   * `UpdateEquationDisplay`: the loop over the first `count` instructions, then
   * the partial entry. While a number is being typed the last instruction is
   * the one standing for it, so it is left out and the typed text shown instead.
   */
  method UpdateEquationDisplay(eq: seq<Instr>, typing: bool, entry: string, show: NumberFormat) returns (display: string)
    requires typing ==> |eq| > 0
    ensures display == EquationText(eq, typing, entry, show)
  {
    var count := |eq|;
    if typing {
      count := count - 1;
    }
    display := "";
    var i := 0;
    while i < count
      invariant 0 <= i <= count
      invariant display == Spaced(eq[..i], show)
    {
      assert eq[..i + 1] == eq[..i] + [eq[i]];
      SpacedSnoc(eq[..i], eq[i], show);
      display := display + Label(eq[i], show) + " ";
      i := i + 1;
    }
    assert eq[..count] == (if typing then eq[..|eq| - 1] else eq);
    if typing {
      display := display + entry;
    }
  }

  /** The transcript of a concatenation is the concatenation of the transcripts. */
  lemma {:induction false} SpacedAppend(a: seq<Instr>, b: seq<Instr>, show: NumberFormat)
    ensures Spaced(a + b, show) == Spaced(a, show) + Spaced(b, show)
    decreases |a|
  {
    if a == [] {
      assert a + b == b;
    } else {
      var w := Label(a[0], show) + " ";
      assert (a + b)[0] == a[0] && (a + b)[1..] == a[1..] + b;
      SpacedAppend(a[1..], b, show);
      assert Spaced(a + b, show) == w + (Spaced(a[1..], show) + Spaced(b, show));
    }
  }

  /** Appending one instruction appends its label and a space. */
  lemma SpacedSnoc(eq: seq<Instr>, i: Instr, show: NumberFormat)
    ensures Spaced(eq + [i], show) == Spaced(eq, show) + Label(i, show) + " "
  {
    SpacedAppend(eq, [i], show);
    SpacedOne(i, show);
  }

  /** One instruction's part of the transcript is its label and a space. */
  lemma SpacedOne(i: Instr, show: NumberFormat)
    ensures Spaced([i], show) == Label(i, show) + " "
  {
    assert [i][1..] == [];
  }

  /**
   * After `addInstruction` the display is the whole old slot, the typed number
   * (now a finished instruction) included, followed by the new label.
   */
  lemma AddShowsLabel(c: State, inst: Instr, entry: string, show: NumberFormat)
    requires c.Valid()
    ensures var c' := AddInstruction(c, inst);
            EquationText(c'.Active(), c'.entryInProgress, entry, show) ==
            Spaced(c.Active(), show) + Label(inst, show) + " "
  {
    SpacedAppend(c.Active(), [inst], show);
    SpacedOne(inst, show);
  }

  /** Backspace outside number entry removes exactly the last label and its space from the display. */
  lemma BackspaceDropsLabel(c: State, reply: Reply, typingAfter: bool, entry: string, show: NumberFormat)
    requires c.Valid() && !c.entryInProgress && |c.Active()| > 0
    ensures var c' := NumpadKey(c, Backspace, reply, typingAfter);
            var eq := c.Active();
            EquationText(eq, false, entry, show) ==
            EquationText(c'.Active(), c'.entryInProgress, entry, show) + Label(eq[|eq| - 1], show) + " "
  {
    var eq := c.Active();
    assert eq == eq[..|eq| - 1] + [eq[|eq| - 1]];
    SpacedSnoc(eq[..|eq| - 1], eq[|eq| - 1], show);
  }

  /** While a number is typed, replacing the instruction that stands for it changes only the typed text shown. */
  lemma EntryReplacesLastInDisplay(c: State, key: char, inst: Instr, entry: string, show: NumberFormat)
    requires c.Valid() && c.entryInProgress
    ensures var c' := NumpadKey(c, key, Reply(true, inst), true);
            EquationText(c'.Active(), true, entry, show) == EquationText(c.Active(), true, entry, show)
  {
    var eq := c.Active();
    var c' := NumpadKey(c, key, Reply(true, inst), true);
    assert c'.Active()[..|eq| - 1] == eq[..|eq| - 1];
  }
}
