/** The console's number type (tools.go): a value paired with an optional
    error, whose arithmetic passes the first error on instead of computing.
    Values are exact reals here; float64 rounding, parsing and formatting are
    not part of this model, and no contract below speaks of a computed value
    except where an error result fixes it to zero. */
module Tools {
  import opened Outcomes

  /** A non-nil Go error, known by its message. */
  datatype Error = Error(message: string)

  /** F: the value V and the error Err, None standing for nil. */
  datatype F = F(v: real, err: Option<Error>)

  /** The error Div reports for a zero divisor. */
  const DivisionByZero: Error := Error("division by zero")

  /** Valid: no error is attached. */
  predicate Valid(f: F): (b: bool)
    ensures b <==> f.err.None?
  {
    f.err.None?
  }

  /** The error of the leftmost operand that carries one; None when all are
      valid. The reference the operations below are measured against. */
  function FirstError(fs: seq<F>): (e: Option<Error>)
    ensures e.None? <==> forall i :: 0 <= i < |fs| ==> Valid(fs[i])
    ensures e.Some? ==> exists i :: 0 <= i < |fs| && fs[i].err == e && forall j :: 0 <= j < i ==> Valid(fs[j])
  {
    if |fs| == 0 then None
    else if fs[0].err.Some? then fs[0].err
    else
      var e := FirstError(fs[1..]);
      assert forall i :: 1 <= i < |fs| ==> fs[i] == fs[1..][i - 1];
      e
  }

  // ---------------------------------------------------------------------------
  // Arithmetic

  /** Sub: the receiver's error, else the argument's, else the difference. */
  function Sub(f: F, g: F): (r: F)
    ensures !Valid(f) ==> r == f
    ensures Valid(f) && !Valid(g) ==> r == g
    ensures r.err == FirstError([f, g])
  {
    if !Valid(f) then f
    else if !Valid(g) then g
    else F(f.v - g.v, None)
  }

  /** Add: the receiver's error, else the argument's, else the sum. */
  function Add(f: F, g: F): (r: F)
    ensures !Valid(f) ==> r == f
    ensures Valid(f) && !Valid(g) ==> r == g
    ensures r.err == FirstError([f, g])
  {
    if !Valid(f) then f
    else if !Valid(g) then g
    else F(f.v + g.v, None)
  }

  /** Mult: the receiver's error, else the argument's, else the product. */
  function Mult(f: F, g: F): (r: F)
    ensures !Valid(f) ==> r == f
    ensures Valid(f) && !Valid(g) ==> r == g
    ensures r.err == FirstError([f, g])
  {
    if !Valid(f) then f
    else if !Valid(g) then g
    else F(f.v * g.v, None)
  }

  /** Div: the receiver's error, else the argument's, else a division-by-zero
      error with a zero value when the divisor is zero, else the quotient. */
  function Div(f: F, g: F): (r: F)
    ensures !Valid(f) ==> r == f
    ensures Valid(f) && !Valid(g) ==> r == g
    ensures Valid(f) && Valid(g) && g.v == 0.0 ==> r == F(0.0, Some(DivisionByZero))
    ensures Valid(r) <==> Valid(f) && Valid(g) && g.v != 0.0
    ensures FirstError([f, g]).Some? ==> r.err == FirstError([f, g])
  {
    if !Valid(f) then f
    else if !Valid(g) then g
    else if g.v == 0.0 then F(0.0, Some(DivisionByZero))
    else F(f.v / g.v, None)
  }

  /** Floor: an invalid value unchanged, else the largest integer not above
      the value. */
  function Floor(f: F): (r: F)
    ensures !Valid(f) ==> r == f
    ensures Valid(r) <==> Valid(f)
    ensures Valid(f) ==> r.v == r.v.Floor as real && r.v <= f.v < r.v + 1.0
  {
    if !Valid(f) then f
    else F(f.v.Floor as real, None)
  }

  // ---------------------------------------------------------------------------
  // Constructors

  /** FromError: the error attached to a zero value; a nil error gives a
      valid zero. */
  function FromError(e: Option<Error>): (r: F)
    ensures Valid(r) <==> e.None?
    ensures r.err == e && r.v == 0.0
  {
    F(0.0, e)
  }

  /** FromF: a valid value. */
  function FromF(x: real): (r: F)
    ensures Valid(r) && r.v == x
  {
    F(x, None)
  }

  /** FromI: the integer as a valid value. */
  function FromI(i: int): (r: F)
    ensures Valid(r) && r.v == i as real
  {
    F(i as real, None)
  }

  // ---------------------------------------------------------------------------
  // Chains

  datatype Op = AddOp | SubOp | MultOp | DivOp

  /** One operation applied to an accumulated receiver and an operand. */
  datatype Step = Step(op: Op, operand: F)

  function Apply(op: Op, f: F, g: F): F {
    match op
    case AddOp => Add(f, g)
    case SubOp => Sub(f, g)
    case MultOp => Mult(f, g)
    case DivOp => Div(f, g)
  }

  /** A left-nested chain `f.Op1(g1).Op2(g2)...`. */
  function Chain(f: F, steps: seq<Step>): F
    decreases |steps|
  {
    if |steps| == 0 then f else Chain(Apply(steps[0].op, f, steps[0].operand), steps[1..])
  }

  /** A chain of two steps is the two operations nested left to right. */
  lemma ChainOfTwo(f: F, s1: Step, s2: Step)
    ensures Chain(f, [s1, s2]) == Apply(s2.op, Apply(s1.op, f, s1.operand), s2.operand)
  {
    var g := Apply(s1.op, f, s1.operand);
    assert [s1, s2][1..] == [s2];
    assert Chain(f, [s1, s2]) == Chain(g, [s2]);
    assert [s2][1..] == [];
    assert Chain(g, [s2]) == Chain(Apply(s2.op, g, s2.operand), []);
  }

  /** The operands of a chain, left to right, after its receiver. */
  function Operands(f: F, steps: seq<Step>): (fs: seq<F>)
    ensures |fs| == |steps| + 1 && fs[0] == f
    ensures forall i :: 0 <= i < |steps| ==> fs[i + 1] == steps[i].operand
  {
    [f] + seq(|steps|, i requires 0 <= i < |steps| => steps[i].operand)
  }

  /** No division in the chain has a valid zero divisor. */
  predicate NoZeroDivisor(steps: seq<Step>) {
    forall i :: 0 <= i < |steps| && steps[i].op == DivOp && Valid(steps[i].operand) ==> steps[i].operand.v != 0.0
  }

  /** The leftmost error of a list is that of its first element, or else the
      leftmost error of the rest. */
  lemma FirstErrorCons(f: F, g: F, rest: seq<F>)
    ensures FirstError([f, g] + rest) == (if FirstError([f, g]).Some? then FirstError([f, g]) else FirstError(rest))
  {
    assert ([f, g] + rest)[1..] == [g] + rest;
    assert ([g] + rest)[1..] == rest;
    assert [f, g][1..] == [g];
    assert [g][1..] == [];
  }

  /** Without a zero divisor, a left-nested chain carries the error of its
      leftmost invalid operand, the receiver included. */
  lemma {:induction false} ChainCarriesLeftmostError(f: F, steps: seq<Step>)
    requires NoZeroDivisor(steps)
    ensures Chain(f, steps).err == FirstError(Operands(f, steps))
    decreases |steps|
  {
    if |steps| == 0 {
      assert Operands(f, steps) == [f];
    } else {
      var g := steps[0].operand;
      var h := Apply(steps[0].op, f, g);
      assert h.err == FirstError([f, g]);
      assert NoZeroDivisor(steps[1..]) by {
        assert forall i :: 0 <= i < |steps| - 1 ==> steps[1..][i] == steps[i + 1];
      }
      ChainCarriesLeftmostError(h, steps[1..]);
      var rest := Operands(h, steps[1..])[1..];
      assert Operands(h, steps[1..]) == [h] + rest;
      assert Operands(f, steps) == [f, g] + rest;
      FirstErrorCons(f, g, rest);
      FirstErrorFront(h, rest);
    }
  }

  lemma FirstErrorFront(h: F, rest: seq<F>)
    ensures FirstError([h] + rest) == (if h.err.Some? then h.err else FirstError(rest))
  {
    assert ([h] + rest)[1..] == rest;
  }

  /** A chain is valid exactly when every operand is valid and no division
      has a zero divisor. */
  lemma {:induction false} ChainValidIff(f: F, steps: seq<Step>)
    ensures Valid(Chain(f, steps)) <==>
      Valid(f) &&
      (forall i :: 0 <= i < |steps| ==> Valid(steps[i].operand)) &&
      (forall i :: 0 <= i < |steps| && steps[i].op == DivOp ==> steps[i].operand.v != 0.0)
    decreases |steps|
  {
    if |steps| > 0 {
      var g := steps[0].operand;
      var h := Apply(steps[0].op, f, g);
      ChainValidIff(h, steps[1..]);
      assert forall i :: 0 <= i < |steps| - 1 ==> steps[1..][i] == steps[i + 1];
      assert Valid(h) <==> Valid(f) && Valid(g) && (steps[0].op == DivOp ==> g.v != 0.0);
    }
  }

  /** An invalid receiver comes out of any chain unchanged. */
  lemma {:induction false} InvalidReceiverSurvives(f: F, steps: seq<Step>)
    requires !Valid(f)
    ensures Chain(f, steps) == f
    decreases |steps|
  {
    if |steps| > 0 {
      assert Apply(steps[0].op, f, steps[0].operand) == f;
      InvalidReceiverSurvives(f, steps[1..]);
    }
  }
}
