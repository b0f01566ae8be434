/** Numeric conversions of the C++ nodes, over Dafny's exact reals and integers.

    Floating-point rounding is not modelled: a `float` is a real. What the nodes
    do rely on, and what is therefore modelled, is (1) the float-to-int
    conversions, written out explicitly, and (2) the three non-finite IEEE
    classes that the NaN/Inf guards test for, which the model produces only
    where exact arithmetic would divide by zero. */
module Numeric {

  /** A float-to-int conversion in C++ (`int(x)`, an `int` field assigned a
      float, a `float` argument passed for an `int` parameter): truncation
      toward zero. */
  function Trunc(x: real): (n: int)
    ensures 0.0 <= x ==> n as real <= x < n as real + 1.0
    ensures x < 0.0 ==> n as real - 1.0 < x <= n as real
  {
    if x >= 0.0 then x.Floor else -((-x).Floor)
  }

  /** `std::round`: the nearest integer, halfway cases away from zero. */
  function Round(x: real): (n: int)
    ensures 0.0 <= x ==> n as real - 0.5 <= x < n as real + 0.5
    ensures x < 0.0 ==> n as real - 0.5 < x <= n as real + 0.5
  {
    if x >= 0.0 then (x + 0.5).Floor else -((-x + 0.5).Floor)
  }

  /** The least integer not below `x`: for an integer `i`, `(i as real) < x`
      holds exactly when `i < Ceil(x)`. It is the bound of a C++ loop
      `for (int i = ...; i < x; i++)` whose limit `x` is a float. */
  function Ceil(x: real): (n: int)
    ensures (n - 1) as real < x <= n as real
  {
    -((-x).Floor)
  }

  /** `std::min` on ints. */
  function Min(a: int, b: int): (m: int)
    ensures m <= a && m <= b
    ensures m == a || m == b
  {
    if b < a then b else a
  }

  /** `std::max` on non-negative values. */
  function Max(a: nat, b: nat): (m: nat)
    ensures a <= m && b <= m
    ensures m == a || m == b
  {
    if a < b then b else a
  }

  /** A floating-point value seen through its IEEE class: finite, one of the
      two infinities, or NaN. The sign of a zero is not modelled. */
  datatype Ext = Fin(v: real) | PosInf | NegInf | NaN

  /** `std::isnan`. */
  predicate IsNaN(e: Ext) { e.NaN? }

  /** `std::isinf`: true of both infinities. */
  predicate IsInf(e: Ext) { e.PosInf? || e.NegInf? }

  /** The IEEE quotient of two finite operands, a zero divisor taken as +0:
      a non-zero numerator gives an infinity, a zero numerator gives NaN. */
  function Div(a: real, b: real): (e: Ext)
    ensures b != 0.0 ==> e == Fin(a / b)
    ensures b == 0.0 ==> (IsNaN(e) <==> a == 0.0) && (IsInf(e) <==> a != 0.0)
    ensures b == 0.0 && a > 0.0 ==> e == PosInf
    ensures b == 0.0 && a < 0.0 ==> e == NegInf
  {
    if b != 0.0 then Fin(a / b)
    else if a > 0.0 then PosInf
    else if a < 0.0 then NegInf
    else NaN
  }

  /** IEEE negation. */
  function Neg(e: Ext): (r: Ext)
    ensures IsNaN(r) <==> IsNaN(e)
    ensures IsInf(r) <==> IsInf(e)
    ensures e.Fin? ==> r == Fin(-e.v)
    ensures e == PosInf <==> r == NegInf
    ensures e == NegInf <==> r == PosInf
  {
    match e
    case Fin(v) => Fin(-v)
    case PosInf => NegInf
    case NegInf => PosInf
    case NaN => NaN
  }
}
