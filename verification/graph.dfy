/**
 * The curve sampler `drawGraph`: the equation is evaluated once per screen
 * column, 0 to 399, and consecutive columns are joined by a line when both
 * evaluated successfully. An undefined column leaves a gap; an underflow or
 * overflow stops the scan and, for the active equation, shows an error.
 * Screen coordinates are abstracted away: a segment is the pair of columns it
 * joins.
 */
module Graph {
  import opened Optional
  import opened Rpn

  /** Screen columns scanned by `drawGraph`. */
  const Width := 400

  datatype Segment = Segment(from: nat, to: nat)

  /** What one pass draws: the joined column pairs in drawing order, and the error text, if shown. */
  datatype Plot = Plot(segments: seq<Segment>, error: Option<string>)

  /** Statuses that end the scan. */
  predicate Fatal(st: Status) {
    st == Underflow || st == Overflow
  }

  /** The column where the scan stops: the first fatal one, or `|cols|` when there is none. */
  function StopAt(cols: seq<Status>): (k: nat)
    ensures k <= |cols|
    ensures forall j :: 0 <= j < k ==> !Fatal(cols[j])
    ensures k < |cols| ==> Fatal(cols[k])
    decreases |cols|
  {
    if cols == [] then 0
    else if Fatal(cols[0]) then 0
    else 1 + StopAt(cols[1..])
  }

  /** Column `x` is joined to column `x - 1`. */
  predicate Joins(cols: seq<Status>, x: int) {
    0 < x < StopAt(cols) && cols[x - 1] == Ok && cols[x] == Ok
  }

  function ErrorText(st: Status): string
    requires Fatal(st)
  {
    if st == Overflow then "Error: Stack overflow" else "Error: Stack underflow"
  }

  /**
   * `segs` is exactly what the scan has drawn once it has passed the columns
   * before `x`: every segment joins a column to its predecessor, the segments
   * come in increasing column order, and every join before `x` is among them.
   */
  ghost predicate DrawnUpTo(cols: seq<Status>, segs: seq<Segment>, x: int) {
    (forall k :: 0 <= k < |segs| ==> segs[k].from + 1 == segs[k].to && segs[k].to < x && Joins(cols, segs[k].to)) &&
    (forall k, l :: 0 <= k < l < |segs| ==> segs[k].to < segs[l].to) &&
    (forall y :: 0 <= y < x && Joins(cols, y) ==> exists k :: 0 <= k < |segs| && segs[k].to == y)
  }

  /** Passing column `x`: a join into `x` is appended, anything else leaves the drawing as it is. */
  lemma DrawnStep(cols: seq<Status>, segs: seq<Segment>, x: nat)
    requires DrawnUpTo(cols, segs, x)
    ensures Joins(cols, x) ==> DrawnUpTo(cols, segs + [Segment(x - 1, x)], x + 1)
    ensures !Joins(cols, x) ==> DrawnUpTo(cols, segs, x + 1)
  {
    if Joins(cols, x) {
      var segs' := segs + [Segment(x - 1, x)];
      forall y | 0 <= y <= x && Joins(cols, y)
        ensures exists k :: 0 <= k < |segs'| && segs'[k].to == y
      {
        if y < x {
          var k :| 0 <= k < |segs| && segs[k].to == y;
          assert segs'[k] == segs[k];
        } else {
          assert segs'[|segs|].to == y;
        }
      }
    }
  }

  /**
   * `drawGraph` over the per-column statuses. `ignoreLastPoint` and `lastPoint`
   * are the source's loop state; `lastPoint` is kept as the column it belongs to.
   */
  method DrawGraph(cols: seq<Status>, showErrors: bool) returns (plot: Plot)
    requires |cols| == Width
    ensures forall k :: 0 <= k < |plot.segments| ==>
              plot.segments[k].from + 1 == plot.segments[k].to && Joins(cols, plot.segments[k].to)
    ensures forall k, l :: 0 <= k < l < |plot.segments| ==> plot.segments[k].to < plot.segments[l].to
    ensures forall k :: 0 <= k < |plot.segments| ==> plot.segments[k].to < StopAt(cols)
    ensures forall x :: Joins(cols, x) ==> exists k :: 0 <= k < |plot.segments| && plot.segments[k].to == x
    ensures plot.error.Some? <==> showErrors && StopAt(cols) < |cols|
    ensures plot.error.Some? ==> plot.error.value == ErrorText(cols[StopAt(cols)])
  {
    var segments: seq<Segment> := [];
    var ignoreLastPoint := true;
    var lastPoint: nat := 0;
    var x := 0;
    while x < Width
      invariant 0 <= x <= Width
      invariant x <= StopAt(cols)
      invariant ignoreLastPoint <==> x == 0 || cols[x - 1] != Ok
      invariant x > 0 ==> lastPoint == x - 1
      invariant DrawnUpTo(cols, segments, x)
    {
      var status := cols[x];
      if Fatal(status) {
        assert x == StopAt(cols);
      }
      DrawnStep(cols, segments, x);
      if status == Ok && !ignoreLastPoint {
        segments := segments + [Segment(lastPoint, x)];
      } else if status == Overflow {
        plot := Plot(segments, if showErrors then Some(ErrorText(status)) else None);
        return;
      } else if status == Underflow {
        plot := Plot(segments, if showErrors then Some(ErrorText(status)) else None);
        return;
      } else {
        ignoreLastPoint := status == Undefined;
      }
      lastPoint := x;
      x := x + 1;
    }
    plot := Plot(segments, None);
  }

  /** The environment with the sampled x written into `exprX`. */
  function WithX(env: Env, gx: real): (e: Env)
    ensures e.vars(ExprX) == gx
    ensures forall c :: c != ExprX ==> e.vars(c) == env.vars(c)
    ensures e.call == env.call && e.pow == env.pow
  {
    env.(vars := (c: VarRef) => if c == ExprX then gx else env.vars(c))
  }

  /**
   * The status of every column: `exprX` is set to the column's x value `gx(c)`
   * (the viewport mapping, left abstract) before the equation is run.
   */
  function Columns(prog: seq<Instr>, env: Env, gx: int -> real): (cols: seq<Status>)
    ensures |cols| == Width
    ensures forall c :: 0 <= c < Width ==> cols[c] == Run(prog, WithX(env, gx(c)), 0.0).status
    ensures forall c :: 0 <= c < Width ==> cols[c] != Overflow
  {
    seq(Width, c requires 0 <= c < Width => Run(prog, WithX(env, gx(c)), 0.0).status)
  }

  /** The engine never reports overflow, so no column the sampler sees is an overflow. */
  lemma ColumnsNeverOverflow(prog: seq<Instr>, env: Env, gx: int -> real)
    ensures forall c :: 0 <= c < Width ==> Columns(prog, env, gx)[c] != Overflow
  {
  }

  /** An equation that never pushes `exprX` evaluates the same way in every column. */
  lemma ColumnsUniform(prog: seq<Instr>, env: Env, gx: int -> real, c: int, d: int)
    requires ExprX !in Reads(prog)
    requires 0 <= c < Width && 0 <= d < Width
    ensures Columns(prog, env, gx)[c] == Columns(prog, env, gx)[d]
  {
    var e1, e2 := WithX(env, gx(c)), WithX(env, gx(d));
    assert forall v :: v in Reads(prog) ==> e1.vars(v) == e2.vars(v);
    RunFrame(prog, e1, e2, 0.0);
  }

  /** So an equation without `x` draws either the whole horizontal run of joins or nothing. */
  lemma ConstantEquationAllOrNothing(prog: seq<Instr>, env: Env, gx: int -> real)
    requires ExprX !in Reads(prog)
    ensures var cols := Columns(prog, env, gx);
            (forall x :: 0 < x < Width ==> Joins(cols, x)) || (forall x :: !Joins(cols, x))
  {
    var cols := Columns(prog, env, gx);
    forall c | 0 <= c < Width
      ensures cols[c] == cols[0]
    {
      ColumnsUniform(prog, env, gx, c, 0);
    }
    if cols[0] == Ok {
      forall x | 0 < x < Width
        ensures Joins(cols, x)
      {
        AllDefinedIsContinuous(cols, x);
      }
    }
  }

  /** An empty equation underflows at column 0: nothing is drawn and the underflow error is reported. */
  lemma EmptyEquationDrawsNothing(env: Env, gx: int -> real)
    ensures StopAt(Columns([], env, gx)) == 0
    ensures forall x :: !Joins(Columns([], env, gx), x)
    ensures ErrorText(Columns([], env, gx)[0]) == "Error: Stack underflow"
  {
    var cols := Columns([], env, gx);
    assert cols[0] == Underflow;
  }

  /** Every column evaluates: all of 1..399 are joined, one continuous polyline. */
  lemma AllDefinedIsContinuous(cols: seq<Status>, x: int)
    requires |cols| == Width && forall j :: 0 <= j < |cols| ==> cols[j] == Ok
    ensures StopAt(cols) == Width
    ensures Joins(cols, x) <==> 0 < x < Width
  {
  }

  /**
   * A single interior undefined column `u` splits the curve into two runs: the
   * scan continues, and only the joins into `u` and into `u + 1` are missing.
   */
  lemma SingleGapSplitsCurve(cols: seq<Status>, u: int, x: int)
    requires |cols| == Width && 0 < u < Width - 1
    requires cols[u] == Undefined
    requires forall j :: 0 <= j < |cols| && j != u ==> cols[j] == Ok
    ensures StopAt(cols) == Width
    ensures Joins(cols, x) <==> 0 < x < Width && x != u && x != u + 1
  {
  }

}
