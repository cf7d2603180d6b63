/**
 The vertex extractor: `pairwise` and `enumerateVertices` of src/index.ts.
 A stream of drawing operators is interpreted with a current affine matrix
 and a save/restore stack of matrices; every coordinate pair of a `moveTo`,
 `lineTo` or `constructPath` operator is emitted, mapped by the matrix in
 force at that operator. The generators become functions returning sequences.
 */
module Vertices {
  import opened Geometry

  /** The operator codes the extractor distinguishes; every other code is `Other`. */
  datatype OpCode = Save | Restore | Transform | MoveTo | LineTo | ConstructPath | Other

  /** One entry of an operator's argument array: a number, or a nested array of numbers. */
  datatype Arg = Num(value: real) | Nums(values: seq<real>)

  /** One operator with its argument array (`fnArray[i]` paired with `argsArray[i]`). */
  datatype Op = Op(code: OpCode, args: seq<Arg>)

  /** The matrix in force and the stack of saved matrices (top at the end). */
  datatype MatrixState = MatrixState(current: Mat2d, stack: seq<Mat2d>)

  /** Consecutive numbers taken two at a time; an odd trailing number is dropped. */
  function Pairwise(s: seq<real>): (r: seq<Vec2>)
    ensures |r| == |s| / 2
    ensures forall i :: 0 <= i < |r| ==> r[i] == Vec2(s[2 * i], s[2 * i + 1])
    decreases |s|
  {
    if |s| < 2 then [] else [Vec2(s[0], s[1])] + Pairwise(s[2..])
  }

  /** The coordinates of a list of points, x before y. */
  function Coordinates(ps: seq<Vec2>): (r: seq<real>)
    decreases |ps|
  {
    if |ps| == 0 then [] else [ps[0].x, ps[0].y] + Coordinates(ps[1..])
  }

  /** `Pairwise` undoes `Coordinates`. */
  lemma {:induction false} PairwiseOfCoordinates(ps: seq<Vec2>)
    ensures Pairwise(Coordinates(ps)) == ps
    decreases |ps|
  {
    if |ps| > 0 {
      PairwiseOfCoordinates(ps[1..]);
      assert Coordinates(ps)[2..] == Coordinates(ps[1..]);
    }
  }

  /** `Coordinates` undoes `Pairwise` up to the dropped odd trailing number. */
  lemma {:induction false} CoordinatesOfPairwise(s: seq<real>)
    ensures Coordinates(Pairwise(s)) == s[..|s| / 2 * 2]
    decreases |s|
  {
    if |s| >= 2 {
      CoordinatesOfPairwise(s[2..]);
      assert Pairwise(s)[1..] == Pairwise(s[2..]);
      assert s[..|s| / 2 * 2] == [s[0], s[1]] + s[2..][..|s[2..]| / 2 * 2];
    }
  }

  /** The argument shapes the interpreter can read without failing: six numbers for
      `transform`, numbers only for `moveTo`/`lineTo`, a nested array at index 1 for
      `constructPath`. Other operators ignore their arguments. */
  predicate WellFormed(op: Op)
  {
    match op.code
    case Transform => |op.args| >= 6 && forall i :: 0 <= i < 6 ==> op.args[i].Num?
    case MoveTo | LineTo => forall i :: 0 <= i < |op.args| ==> op.args[i].Num?
    case ConstructPath => |op.args| >= 2 && op.args[1].Nums?
    case _ => true
  }

  /** The numbers of an all-number argument array. */
  function Numbers(args: seq<Arg>): (r: seq<real>)
    requires forall i :: 0 <= i < |args| ==> args[i].Num?
    ensures |r| == |args|
    ensures forall i :: 0 <= i < |r| ==> args[i] == Num(r[i])
    decreases |args|
  {
    if |args| == 0 then [] else [args[0].value] + Numbers(args[1..])
  }

  /** The raw coordinate list an operator emits points for: all of `args` for
      `moveTo`/`lineTo`, `args[1]` for `constructPath`, nothing otherwise. */
  function PathCoordinates(op: Op): seq<real>
    requires WellFormed(op)
  {
    match op.code
    case MoveTo | LineTo => Numbers(op.args)
    case ConstructPath => op.args[1].values
    case _ => []
  }

  /** The raw (untransformed) points of an operator. */
  function RawPoints(op: Op): seq<Vec2>
    requires WellFormed(op)
  {
    Pairwise(PathCoordinates(op))
  }

  /** `mat2d.fromValues(a, b, c, d, tx, ty)` over a `transform` operator's arguments. */
  function OperandMatrix(op: Op): Mat2d
    requires op.code == Transform && WellFormed(op)
  {
    Mat2d(op.args[0].value, op.args[1].value, op.args[2].value,
          op.args[3].value, op.args[4].value, op.args[5].value)
  }

  /** The interpreter's state before the first operator: identity matrix, empty stack. */
  function Initial(): (st: MatrixState)
    ensures st.stack == []
    ensures forall p :: Apply(st.current, p) == p
  {
    MatrixState(Create(), [])
  }

  /** The matrix state after one operator. The stack moves only at its top, by the
      operator's depth change (a `restore` on an empty stack does nothing); a `transform`
      makes the current matrix apply its operand first; a `restore` reinstates the last
      saved matrix; nothing else touches the current matrix. */
  function Next(st: MatrixState, op: Op): (r: MatrixState)
    requires WellFormed(op)
    ensures |r.stack| == if |st.stack| + DepthChange(op) < 0 then 0 else |st.stack| + DepthChange(op)
    ensures forall i :: 0 <= i < |r.stack| && i < |st.stack| ==> r.stack[i] == st.stack[i]
    ensures op.code == Save ==> r.stack[|st.stack|] == st.current
    ensures op.code == Transform ==>
      forall p :: Apply(r.current, p) == Apply(st.current, Apply(OperandMatrix(op), p))
    ensures op.code == Restore && |st.stack| > 0 ==> r.current == st.stack[|st.stack| - 1]
    ensures op.code != Transform && (op.code != Restore || |st.stack| == 0) ==> r.current == st.current
  {
    match op.code
    case Save => MatrixState(st.current, st.stack + [st.current])
    case Restore =>
      if |st.stack| > 0 then MatrixState(st.stack[|st.stack| - 1], st.stack[..|st.stack| - 1])
      else st
    case Transform => MatrixState(Multiply(st.current, OperandMatrix(op)), st.stack)
    case _ => st
  }

  /** The points one operator yields: one per coordinate pair of its argument array, each
      mapped by the matrix in force. */
  function Emit(st: MatrixState, op: Op): (r: seq<Vec2>)
    requires WellFormed(op)
    ensures |r| == |PathCoordinates(op)| / 2
    ensures forall i :: 0 <= i < |r| ==>
      r[i] == Apply(st.current, Vec2(PathCoordinates(op)[2 * i], PathCoordinates(op)[2 * i + 1]))
  {
    var raw := RawPoints(op);
    seq(|raw|, i requires 0 <= i < |raw| => Apply(st.current, raw[i]))
  }

  predicate AllWellFormed(ops: seq<Op>)
  {
    forall i :: 0 <= i < |ops| ==> WellFormed(ops[i])
  }

  /** The matrix state after running `ops` from `st`. */
  function Run(st: MatrixState, ops: seq<Op>): MatrixState
    requires AllWellFormed(ops)
    decreases |ops|
  {
    if |ops| == 0 then st
    else Next(Run(st, ops[..|ops| - 1]), ops[|ops| - 1])
  }

  /** Everything `ops` yields when run from `st`, in operator order. */
  function Emitted(st: MatrixState, ops: seq<Op>): seq<Vec2>
    requires AllWellFormed(ops)
    decreases |ops|
  {
    if |ops| == 0 then []
    else
      var init := ops[..|ops| - 1];
      Emitted(st, init) + Emit(Run(st, init), ops[|ops| - 1])
  }

  /** `fnArray[i]` paired with `argsArray[i]` for every operator index. */
  function Zip(fnArray: seq<OpCode>, argsArray: seq<seq<Arg>>): (ops: seq<Op>)
    requires |fnArray| <= |argsArray|
    ensures |ops| == |fnArray|
    ensures forall i :: 0 <= i < |ops| ==> ops[i] == Op(fnArray[i], argsArray[i])
  {
    seq(|fnArray|, i requires 0 <= i < |fnArray| => Op(fnArray[i], argsArray[i]))
  }

  /** Total number of raw points of `ops`. */
  function PointCount(ops: seq<Op>): nat
    requires AllWellFormed(ops)
    decreases |ops|
  {
    if |ops| == 0 then 0
    else PointCount(ops[..|ops| - 1]) + |PathCoordinates(ops[|ops| - 1])| / 2
  }

  /** `enumerateVertices(fnArray, argsArray)`. */
  function EnumerateVertices(fnArray: seq<OpCode>, argsArray: seq<seq<Arg>>): (r: seq<Vec2>)
    requires |fnArray| <= |argsArray|
    requires AllWellFormed(Zip(fnArray, argsArray))
    ensures |r| == PointCount(Zip(fnArray, argsArray))
  {
    var ops := Zip(fnArray, argsArray);
    EmittedCount(Initial(), ops);
    Emitted(Initial(), ops)
  }

  /** One point per coordinate pair of every `moveTo`/`lineTo` argument list and of
      every `constructPath` coordinate array; no other operator contributes. */
  lemma {:induction false} EmittedCount(st: MatrixState, ops: seq<Op>)
    requires AllWellFormed(ops)
    ensures |Emitted(st, ops)| == PointCount(ops)
    decreases |ops|
  {
    if |ops| > 0 {
      EmittedCount(st, ops[..|ops| - 1]);
    }
  }

  /** Operators other than `moveTo`, `lineTo` and `constructPath` yield nothing. */
  lemma SilentOperators(st: MatrixState, op: Op)
    requires WellFormed(op)
    requires op.code !in {MoveTo, LineTo, ConstructPath}
    ensures Emit(st, op) == []
  {
  }

  lemma AllWellFormedConcat(a: seq<Op>, b: seq<Op>)
    requires AllWellFormed(a) && AllWellFormed(b)
    ensures AllWellFormed(a + b)
  {
  }

  /** Running two operator lists one after the other is running their concatenation. */
  lemma {:induction false} RunConcat(st: MatrixState, a: seq<Op>, b: seq<Op>)
    requires AllWellFormed(a) && AllWellFormed(b)
    ensures AllWellFormed(a + b)
    ensures Run(st, a + b) == Run(Run(st, a), b)
    decreases |b|
  {
    AllWellFormedConcat(a, b);
    if |b| == 0 {
      assert a + b == a;
    } else {
      var b0 := b[..|b| - 1];
      assert (a + b)[..|a + b| - 1] == a + b0;
      RunConcat(st, a, b0);
    }
  }

  /** The points of a concatenation are the points of the first part followed by those
      of the second, run from where the first part left the state. */
  lemma {:induction false} EmittedConcat(st: MatrixState, a: seq<Op>, b: seq<Op>)
    requires AllWellFormed(a) && AllWellFormed(b)
    ensures AllWellFormed(a + b)
    ensures Emitted(st, a + b) == Emitted(st, a) + Emitted(Run(st, a), b)
    decreases |b|
  {
    AllWellFormedConcat(a, b);
    if |b| == 0 {
      assert a + b == a;
    } else {
      var b0 := b[..|b| - 1];
      var last := b[|b| - 1];
      assert (a + b)[..|a + b| - 1] == a + b0;
      EmittedConcat(st, a, b0);
      RunConcat(st, a, b0);
      var e1 := Emitted(st, a);
      var e2 := Emitted(Run(st, a), b0);
      var e3 := Emit(Run(st, a + b0), last);
      assert Emitted(st, a + b) == (e1 + e2) + e3;
      assert e1 + (e2 + e3) == (e1 + e2) + e3;
    }
  }

  /** The change in stack depth an operator asks for. */
  function DepthChange(op: Op): int
  {
    match op.code
    case Save => 1
    case Restore => -1
    case _ => 0
  }

  /** Saves minus restores in `ops`. */
  function Depth(ops: seq<Op>): int
    decreases |ops|
  {
    if |ops| == 0 then 0 else Depth(ops[..|ops| - 1]) + DepthChange(ops[|ops| - 1])
  }

  /** No prefix of `ops` restores more than it saved. */
  predicate NeverBelow(ops: seq<Op>)
  {
    forall k :: 0 <= k <= |ops| ==> Depth(ops[..k]) >= 0
  }

  /** Every restore in `ops` matches a save in `ops`, and every save is restored. */
  predicate Balanced(ops: seq<Op>)
  {
    NeverBelow(ops) && Depth(ops) == 0
  }

  /** While no prefix restores more than it saved, the saved stack below the starting
      depth is never touched and the depth moves by saves minus restores. */
  lemma {:induction false} StackDiscipline(st: MatrixState, ops: seq<Op>)
    requires AllWellFormed(ops) && NeverBelow(ops)
    ensures Depth(ops) >= 0
    ensures |Run(st, ops).stack| == |st.stack| + Depth(ops)
    ensures Run(st, ops).stack[..|st.stack|] == st.stack
    decreases |ops|
  {
    if |ops| > 0 {
      var init := ops[..|ops| - 1];
      assert forall k :: 0 <= k <= |init| ==> init[..k] == ops[..k];
      assert ops[..|ops|] == ops;
      StackDiscipline(st, init);
    } else {
      assert ops[..0] == ops;
    }
  }

  /** A `save`, then a balanced run of operators, then a `restore` gives back exactly
      the matrix in force at the `save` and the stack beneath it, whatever
      transforms came in between. */
  lemma SaveRestore(st: MatrixState, save: Op, mid: seq<Op>, restore: Op)
    requires save.code == Save && restore.code == Restore
    requires AllWellFormed(mid) && Balanced(mid)
    ensures AllWellFormed([save] + mid + [restore])
    ensures Run(st, [save] + mid + [restore]) == st
  {
    RunConcat(st, [save], mid);
    var saved := Run(st, [save]);
    assert saved == MatrixState(st.current, st.stack + [st.current]);
    StackDiscipline(saved, mid);
    RunConcat(st, [save] + mid, [restore]);
    var before := Run(saved, mid);
    assert before.stack == saved.stack;
  }

  /** No `save` in `ops`. */
  predicate NoSave(ops: seq<Op>)
  {
    forall i :: 0 <= i < |ops| ==> ops[i].code != Save
  }

  /** `ops` without its `restore` operators. */
  function DropRestores(ops: seq<Op>): (r: seq<Op>)
    ensures forall i :: 0 <= i < |r| ==> r[i].code != Restore && r[i] in ops
    decreases |ops|
  {
    if |ops| == 0 then []
    else
      var init := DropRestores(ops[..|ops| - 1]);
      if ops[|ops| - 1].code == Restore then init else init + [ops[|ops| - 1]]
  }

  /** With nothing saved, a `restore` is a no-op: from an empty stack, a stream with
      no `save` behaves exactly like the same stream with every `restore` removed. */
  lemma {:induction false} RestoreWithNothingSaved(st: MatrixState, ops: seq<Op>)
    requires st.stack == [] && AllWellFormed(ops) && NoSave(ops)
    ensures AllWellFormed(DropRestores(ops))
    ensures Run(st, ops) == Run(st, DropRestores(ops))
    ensures Run(st, ops).stack == []
    ensures Emitted(st, ops) == Emitted(st, DropRestores(ops))
    decreases |ops|
  {
    if |ops| > 0 {
      var init := ops[..|ops| - 1];
      var last := ops[|ops| - 1];
      RestoreWithNothingSaved(st, init);
      var d := DropRestores(init);
      if last.code != Restore {
        assert DropRestores(ops) == d + [last];
        assert (d + [last])[..|d|] == d;
      }
    }
  }

  /** No `transform` in `ops`. */
  predicate NoTransform(ops: seq<Op>)
  {
    forall i :: 0 <= i < |ops| ==> ops[i].code != Transform
  }

  /** The raw points of every operator of `ops`, in order. */
  function AllRawPoints(ops: seq<Op>): seq<Vec2>
    requires AllWellFormed(ops)
    decreases |ops|
  {
    if |ops| == 0 then [] else AllRawPoints(ops[..|ops| - 1]) + RawPoints(ops[|ops| - 1])
  }

  /** Only identity matrices anywhere in the state. */
  predicate Untransformed(st: MatrixState)
  {
    st.current == Create() && forall i :: 0 <= i < |st.stack| ==> st.stack[i] == Create()
  }

  /** Without `transform`, the matrices in force never leave the identity, and every
      emitted point is its raw coordinate pair. */
  lemma {:induction false} IdentityWithoutTransform(st: MatrixState, ops: seq<Op>)
    requires Untransformed(st) && AllWellFormed(ops) && NoTransform(ops)
    ensures Untransformed(Run(st, ops))
    ensures Emitted(st, ops) == AllRawPoints(ops)
    decreases |ops|
  {
    if |ops| > 0 {
      var init := ops[..|ops| - 1];
      IdentityWithoutTransform(st, init);
      var before := Run(st, init);
      var raw := RawPoints(ops[|ops| - 1]);
      assert Emit(before, ops[|ops| - 1]) == raw;
    }
  }

  /** `enumerateVertices` on a stream without `transform` yields the raw coordinate pairs. */
  lemma VerticesWithoutTransform(fnArray: seq<OpCode>, argsArray: seq<seq<Arg>>)
    requires |fnArray| <= |argsArray|
    requires AllWellFormed(Zip(fnArray, argsArray))
    requires forall i :: 0 <= i < |fnArray| ==> fnArray[i] != Transform
    ensures EnumerateVertices(fnArray, argsArray) == AllRawPoints(Zip(fnArray, argsArray))
  {
    IdentityWithoutTransform(Initial(), Zip(fnArray, argsArray));
  }

  /** Only `transform` operators. */
  predicate AllTransforms(ts: seq<Op>)
  {
    forall i :: 0 <= i < |ts| ==> ts[i].code == Transform && WellFormed(ts[i])
  }

  /** `p` mapped by the operand matrices of `ts`, the last one first. */
  function Compose(ts: seq<Op>, p: Vec2): Vec2
    requires AllTransforms(ts)
    decreases |ts|
  {
    if |ts| == 0 then p
    else Compose(ts[..|ts| - 1], Apply(OperandMatrix(ts[|ts| - 1]), p))
  }

  /** Each `transform` right-multiplies the current matrix: after a run of transforms a
      point goes through the most recent operand first and the matrix in force before
      the run last, and the saved stack is untouched. */
  lemma {:induction false} TransformsCompose(st: MatrixState, ts: seq<Op>)
    requires AllTransforms(ts)
    ensures AllWellFormed(ts)
    ensures Run(st, ts).stack == st.stack
    ensures forall p :: Apply(Run(st, ts).current, p) == Apply(st.current, Compose(ts, p))
    decreases |ts|
  {
    if |ts| > 0 {
      var init := ts[..|ts| - 1];
      TransformsCompose(st, init);
      var m := OperandMatrix(ts[|ts| - 1]);
      forall p ensures Apply(Run(st, ts).current, p) == Apply(st.current, Compose(ts, p)) {
        assert Apply(Run(st, ts).current, p) == Apply(Run(st, init).current, Apply(m, p));
      }
    }
  }
}
