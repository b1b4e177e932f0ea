/** The wire contract shared by the C engine and the Rust wrapper (libfl.h):
    the rounding-mode discriminants, the exception bit assignments and the
    result record the engine fills in. */
module LibflH {

  // enum RoundingMode: the discriminants the engine's switch recognises
  const RMTONEAREST: bv32 := 0
  const RMTOWARDZERO: bv32 := 1
  const RMUPWARD: bv32 := 2
  const RMDOWNWARD: bv32 := 3

  // enum Exception: zero for "no exception", one bit per condition
  const EXNOEXCEPTION: bv32 := 0
  const EXDIVBYZERO: bv32 := 1 << 0
  const EXINVALID: bv32 := 1 << 1
  const EXOVERFLOW: bv32 := 1 << 2
  const EXUNDERFLOW: bv32 := 1 << 3
  const EXINEXACT: bv32 := 1 << 4

  /** Every bit the engine may ever set in an exception mask. */
  const DefinedBits: bv32 := EXDIVBYZERO | EXINVALID | EXOVERFLOW | EXUNDERFLOW | EXINEXACT

  /** A bit-vector with exactly one bit set. */
  predicate SingleBit(b: bv32)
  {
    b != 0 && b & (b - 1) == 0
  }

  /** The five floating-point conditions an exception mask can report. */
  datatype Condition = DivByZero | Invalid | Overflow | Underflow | Inexact

  const AllConditions: set<Condition> := {DivByZero, Invalid, Overflow, Underflow, Inexact}

  /** The wire bit of one condition. */
  function ConditionBit(c: Condition): (b: bv32)
    ensures SingleBit(b)
    ensures b & !DefinedBits == 0
  {
    match c
    case DivByZero => EXDIVBYZERO
    case Invalid => EXINVALID
    case Overflow => EXOVERFLOW
    case Underflow => EXUNDERFLOW
    case Inexact => EXINEXACT
  }

  /** The wire mask that reports exactly the conditions in s. */
  function Encode(s: set<Condition>): (m: bv32)
    ensures m & !DefinedBits == 0
  {
    (if DivByZero in s then EXDIVBYZERO else 0)
    | (if Invalid in s then EXINVALID else 0)
    | (if Overflow in s then EXOVERFLOW else 0)
    | (if Underflow in s then EXUNDERFLOW else 0)
    | (if Inexact in s then EXINEXACT else 0)
  }

  /** The conditions a wire mask reports: those whose bit is set. */
  function Decode(m: bv32): (s: set<Condition>)
    ensures forall c :: c in s <==> m & ConditionBit(c) != 0
  {
    set c | c in AllConditions && m & ConditionBit(c) != 0
  }

  /** Decoding an encoded set gives the set back. */
  lemma DecodeEncode(s: set<Condition>)
    ensures Decode(Encode(s)) == s
  {
  }

  /** A condition's bit is set in Encode(s) exactly when the condition is in s. */
  lemma EncodeBit(s: set<Condition>, c: Condition)
    ensures Encode(s) & ConditionBit(c) != 0 <==> c in s
  {
  }

  /** A mask is "no exception" exactly when it reports no condition. */
  lemma EncodeNone(s: set<Condition>)
    ensures Encode(s) == EXNOEXCEPTION <==> s == {}
  {
    if s != {} {
      var c :| c in s;
      EncodeBit(s, c);
    }
  }

  /** Encoding the decoded set gives back any mask that uses only the defined bits. */
  lemma EncodeDecode(m: bv32)
    requires m & !DefinedBits == 0
    ensures Encode(Decode(m)) == m
  {
  }

  /** struct Result32: the record the engine writes through its out pointer.
      Fields are declared in the order of the C struct (value, then exception);
      value holds the raw bits of the single-precision result. */
  class Result32 {
    var value: bv32
    var exception: bv32

    /** Result32::new on the Rust side: value 0.0 (all bits zero), exception None. */
    constructor ()
      ensures value == 0 && exception == EXNOEXCEPTION
    {
      value := 0;
      exception := EXNOEXCEPTION;
    }
  }
}
