/**
 * verifyResult: recomputes the answer to a stored assignment and compares it with the
 * result field of the client's datagram.
 */
module Verifier {
  import opened Wire
  import opened CppArith
  import opened Wrappers

  /**
   * The floating-point test `std::abs(res - (v1 op v2)) < 1e-6`, evaluated in double
   * arithmetic, for operation code `op` in 5..8 and operands v1, v2 and result res. It
   * is left to the caller: the model does not interpret IEEE-754 arithmetic.
   */
  type FloatWithin = (int32, Double, Double, Double) -> bool

  /**
   * The server's verdict on `result` for the stored `assignment`. Only `inResult` and
   * `flResult` are read from the result; the operation and operands come from the
   * assignment. Integer arithmetic is exact: C++ overflow is undefined and not modelled.
   */
  predicate VerifyResult(assignment: CalcProtocol, result: CalcProtocol, floatWithin: FloatWithin) {
    var op := ToInt32(NetToHost32(assignment.arith));
    if op <= 4 then
      var v1 := ToInt32(NetToHost32(assignment.inValue1));
      var v2 := ToInt32(NetToHost32(assignment.inValue2));
      var res := ToInt32(NetToHost32(result.inResult));
      if op == 1 then res == v1 + v2
      else if op == 2 then res == v1 - v2
      else if op == 3 then res == v1 * v2
      else if op == 4 then v2 != 0 && res == TruncDiv(v1, v2)
      else false
    else
      var v1 := assignment.flValue1;
      var v2 := assignment.flValue2;
      var res := result.flResult;
      if op == 5 || op == 6 || op == 7 then floatWithin(op, v1, v2, res)
      else if op == 8 then !IsZero(v2) && floatWithin(op, v1, v2, res)
      else false
  }

  /** The integer task an assignment holds, as the server reads it back through ntohl. */
  predicate HoldsIntTask(a: CalcProtocol, op: int32, v1: int32, v2: int32) {
    && ToInt32(NetToHost32(a.arith)) == op
    && ToInt32(NetToHost32(a.inValue1)) == v1
    && ToInt32(NetToHost32(a.inValue2)) == v2
  }

  /** The integer a result datagram submits. */
  function SubmittedInt(result: CalcProtocol): int32 {
    ToInt32(NetToHost32(result.inResult))
  }

  /** The exact answer to integer task `op` on v1, v2; None when there is none to accept. */
  function IntAnswer(op: int, v1: int, v2: int): (answer: Option<int>)
    ensures answer.Some? <==> (1 <= op <= 3 || (op == 4 && v2 != 0))
  {
    match op
    case 1 => Some(v1 + v2)
    case 2 => Some(v1 - v2)
    case 3 => Some(v1 * v2)
    case 4 => if v2 == 0 then None else Some(TruncDiv(v1, v2))
    case _ => None
  }

  /**
   * For an integer task the verdict is true exactly when the submitted result equals
   * the answer computed from the STORED operands.
   */
  lemma VerifyIntTask(a: CalcProtocol, result: CalcProtocol, floatWithin: FloatWithin,
                      op: int32, v1: int32, v2: int32)
    requires HoldsIntTask(a, op, v1, v2)
    requires op <= 4
    ensures VerifyResult(a, result, floatWithin) <==> IntAnswer(op, v1, v2) == Some(SubmittedInt(result))
  {
  }

  /** Add, subtract and multiply: true iff the result is v1 + v2, v1 - v2 or v1 * v2. */
  lemma VerifyAddSubMul(a: CalcProtocol, result: CalcProtocol, floatWithin: FloatWithin,
                        op: int32, v1: int32, v2: int32)
    requires HoldsIntTask(a, op, v1, v2)
    ensures op == 1 ==> (VerifyResult(a, result, floatWithin) <==> SubmittedInt(result) == v1 + v2)
    ensures op == 2 ==> (VerifyResult(a, result, floatWithin) <==> SubmittedInt(result) == v1 - v2)
    ensures op == 3 ==> (VerifyResult(a, result, floatWithin) <==> SubmittedInt(result) == v1 * v2)
  {
  }

  /**
   * Division: a zero stored divisor fails every submitted result (and nothing is
   * divided); otherwise the result must be the quotient truncated toward zero.
   */
  lemma VerifyDivision(a: CalcProtocol, result: CalcProtocol, floatWithin: FloatWithin,
                       v1: int32, v2: int32)
    requires HoldsIntTask(a, 4, v1, v2)
    ensures v2 == 0 ==> !VerifyResult(a, result, floatWithin)
    ensures v2 != 0 ==> (VerifyResult(a, result, floatWithin) <==> SubmittedInt(result) == TruncDiv(v1, v2))
  {
    VerifyIntTask(a, result, floatWithin, 4, v1, v2);
  }

  /** A code outside 1..8 fails every result, whatever the float comparison would say. */
  lemma VerifyUnknownCode(a: CalcProtocol, result: CalcProtocol, floatWithin: FloatWithin)
    requires ToInt32(NetToHost32(a.arith)) <= 0 || ToInt32(NetToHost32(a.arith)) > 8
    ensures !VerifyResult(a, result, floatWithin)
  {
  }

  /** A float division whose stored divisor is +0.0 or -0.0 is never accepted. */
  lemma VerifyFloatDivisionByZero(a: CalcProtocol, result: CalcProtocol, floatWithin: FloatWithin)
    requires NetToHost32(a.arith) == 8
    requires IsZero(a.flValue2)
    ensures !VerifyResult(a, result, floatWithin)
  {
  }

  /**
   * The operands and code in the client's datagram are never read: two results that
   * agree on `inResult` and `flResult` get the same verdict.
   */
  lemma VerifyReadsOnlyResultFields(a: CalcProtocol, r1: CalcProtocol, r2: CalcProtocol,
                                    floatWithin: FloatWithin)
    requires r1.inResult == r2.inResult && r1.flResult == r2.flResult
    ensures VerifyResult(a, r1, floatWithin) == VerifyResult(a, r2, floatWithin)
  {
  }
}
