/** The Rust side (lib.rs): the typed rounding modes and exceptions, and the
    safe wrapper that marshals one division through the C engine. */
module LibflRs {
  import H = LibflH
  import C = LibflC

  /** The four rounding policies a caller may ask for. */
  datatype RoundingMode = ToNearest | TowardZero | Upward | Downward

  /** `rm as c_uint`: the discriminant handed to the engine. It is always one
      of the four the engine's switch knows, and it is the header's constant
      for the same mode. */
  function Discriminant(rm: RoundingMode): (d: bv32)
    ensures d < 4
    ensures rm == ToNearest <==> d == H.RMTONEAREST
    ensures rm == TowardZero <==> d == H.RMTOWARDZERO
    ensures rm == Upward <==> d == H.RMUPWARD
    ensures rm == Downward <==> d == H.RMDOWNWARD
  {
    match rm
    case ToNearest => 0
    case TowardZero => 1
    case Upward => 2
    case Downward => 3
  }

  /** Distinct modes have distinct discriminants. */
  lemma DiscriminantInjective(r1: RoundingMode, r2: RoundingMode)
    ensures Discriminant(r1) == Discriminant(r2) ==> r1 == r2
  {
  }

  /** The Rust exception enum: None, or one of the five conditions. */
  datatype Exception = None | DivByZero | Invalid | Overflow | Underflow | Inexact

  /** The discriminant of an Exception variant: zero for None, otherwise the
      header's bit for the same condition. */
  function ExceptionValue(e: Exception): (v: bv32)
    ensures e == None <==> v == H.EXNOEXCEPTION
    ensures e == DivByZero <==> v == H.EXDIVBYZERO
    ensures e == Invalid <==> v == H.EXINVALID
    ensures e == Overflow <==> v == H.EXOVERFLOW
    ensures e == Underflow <==> v == H.EXUNDERFLOW
    ensures e == Inexact <==> v == H.EXINEXACT
    ensures e != None ==> H.SingleBit(v)
  {
    match e
    case None => 0
    case DivByZero => 1 << 0
    case Invalid => 1 << 1
    case Overflow => 1 << 2
    case Underflow => 1 << 3
    case Inexact => 1 << 4
  }

  /** The host rounding mode the engine installs for rm: the arm of its switch
      that the discriminant selects. */
  function HostMode(fe: C.FenvConsts, rm: RoundingMode): (m: int)
    ensures fe.IsMode(m)
    ensures fe.SwitchTarget(Discriminant(rm)) == C.Some(m)
  {
    match rm
    case ToNearest => fe.toNearest
    case TowardZero => fe.towardZero
    case Upward => fe.upward
    case Downward => fe.downward
  }

  /** The four modes reach four distinct host modes. */
  lemma HostModeInjective(fe: C.FenvConsts, r1: RoundingMode, r2: RoundingMode)
    requires fe.Valid()
    ensures HostMode(fe, r1) == HostMode(fe, r2) ==> r1 == r2
  {
  }

  /** f32_div: a fresh zeroed record per call, filled by the engine and
      returned field for field. The value is the quotient computed under the
      requested mode, the exception mask reports exactly the flags this
      division raised, and the caller's rounding mode is back in place. */
  method F32Div(env: C.HostEnv, a: bv32, b: bv32, rm: RoundingMode) returns (value: bv32, exception: bv32)
    requires env.Valid()
    modifies env
    ensures env.Valid()
    ensures env.round == old(env.round)
    ensures value == env.div(a, b, HostMode(env.fe, rm)).bits
    ensures exception == H.Encode(env.fe.Raised(env.div(a, b, HostMode(env.fe, rm)).raised))
    ensures env.except == (old(env.except) - env.fe.AllExcept()) + env.div(a, b, HostMode(env.fe, rm)).raised
  {
    var result := new H.Result32();
    env.F32Div(a, b, Discriminant(rm), result);
    value, exception := result.value, result.exception;
  }
}
