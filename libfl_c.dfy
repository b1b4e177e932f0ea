/** The C engine (libfl.c): the rounding-mode and exception-flag bookkeeping
    around one floating-point operation, over the host floating-point
    environment of <fenv.h>. */
module LibflC {
  import opened LibflH

  /** A host exception register value, as the set of positions of its set bits. */
  type Bits = set<nat>

  /** The platform's <fenv.h> constants. Their values are platform-defined,
      so the model takes them as parameters and assumes only what Valid()
      says. Each FE_ exception macro is a single bit, given here by its
      position: x & FE_DIVBYZERO is non-zero exactly when divByZero is in
      the bit set of x. */
  datatype FenvConsts = FenvConsts(
    toNearest: int, towardZero: int, upward: int, downward: int,
    divByZero: nat, invalid: nat, overflow: nat, underflow: nat, inexact: nat)
  {
    /** Four distinct rounding modes and five distinct single-bit flags. */
    predicate Valid()
    {
      && toNearest != towardZero && toNearest != upward && toNearest != downward
      && towardZero != upward && towardZero != downward && upward != downward
      && divByZero < 32 && invalid < 32 && overflow < 32 && underflow < 32 && inexact < 32
      && divByZero != invalid && divByZero != overflow && divByZero != underflow
      && divByZero != inexact && invalid != overflow && invalid != underflow
      && invalid != inexact && overflow != underflow && overflow != inexact
      && underflow != inexact
    }

    /** The rounding modes fesetround accepts. */
    predicate IsMode(mode: int)
    {
      mode == toNearest || mode == towardZero || mode == upward || mode == downward
    }

    /** FE_ALL_EXCEPT */
    function AllExcept(): Bits
    {
      {divByZero, invalid, overflow, underflow, inexact}
    }

    /** The host flag that stands for a condition. */
    function HostFlag(c: Condition): (f: nat)
      ensures f in AllExcept()
    {
      match c
      case DivByZero => divByZero
      case Invalid => invalid
      case Overflow => overflow
      case Underflow => underflow
      case Inexact => inexact
    }

    /** The conditions whose host flag is set in an exception register value. */
    function Raised(x: Bits): (s: set<Condition>)
    {
      set c | c in AllConditions && HostFlag(c) in x
    }

    /** The arm of pushround's switch that a discriminant selects: the host
        mode it installs, or None when no case label matches. */
    function SwitchTarget(rm: bv32): (t: Option<int>)
      ensures t.Some? <==> rm < 4
      ensures t.Some? ==> IsMode(t.value)
      ensures rm == RMTONEAREST ==> t == Some(toNearest)
      ensures rm == RMTOWARDZERO ==> t == Some(towardZero)
      ensures rm == RMUPWARD ==> t == Some(upward)
      ensures rm == RMDOWNWARD ==> t == Some(downward)
    {
      if rm == RMTONEAREST then Some(toNearest)
      else if rm == RMTOWARDZERO then Some(towardZero)
      else if rm == RMUPWARD then Some(upward)
      else if rm == RMDOWNWARD then Some(downward)
      else None
    }

    /** The rounding register after pushround(rm) from `current`. */
    function Installed(rm: bv32, current: int): (r: int)
    {
      match SwitchTarget(rm)
      case Some(mode) => mode
      case None => current
    }
  }

  datatype Option<T> = None | Some(value: T)

  /** What the hardware reports for one operation: the bits of the result and
      the exception flags the operation raised. */
  datatype FloatOutcome = FloatOutcome(bits: bv32, raised: Bits)

  /** A binary single-precision operation under a given host rounding mode. */
  type FloatOp = (bv32, bv32, int) -> FloatOutcome

  /** A condition is raised exactly when its host flag is set. */
  lemma InRaised(fe: FenvConsts, x: Bits, c: Condition)
    ensures c in fe.Raised(x) <==> fe.HostFlag(c) in x
  {
  }

  /** Clearing the host flags erases every trace of earlier calls: only the
      flags raised afterwards are reported. */
  lemma RaisedAfterClear(fe: FenvConsts, before: Bits, raised: Bits)
    ensures fe.Raised((before - fe.AllExcept()) + raised) == fe.Raised(raised)
  {
  }

  /** Reading the flags through FE_ALL_EXCEPT loses none of them. */
  lemma RaisedUnderMask(fe: FenvConsts, x: Bits)
    ensures fe.Raised(x * fe.AllExcept()) == fe.Raised(x)
  {
  }

  /** getexcept reports conditions bit by bit: bit i of its mask is set
      exactly when host flag i is raised. */
  lemma MaskBitIffHostFlag(fe: FenvConsts, x: Bits, c: Condition)
    ensures Encode(fe.Raised(x)) & ConditionBit(c) != 0 <==> fe.HostFlag(c) in x
  {
    EncodeBit(fe.Raised(x), c);
  }

  /** getexcept reports "no exception" exactly when no host flag is raised. */
  lemma MaskNoneIffNoFlag(fe: FenvConsts, x: Bits)
    ensures Encode(fe.Raised(x)) == EXNOEXCEPTION <==> x * fe.AllExcept() == {}
  {
    EncodeNone(fe.Raised(x));
    if x * fe.AllExcept() != {} {
      var f :| f in x * fe.AllExcept();
      var c: Condition :|
        (c == DivByZero && f == fe.divByZero) || (c == Invalid && f == fe.invalid)
        || (c == Overflow && f == fe.overflow) || (c == Underflow && f == fe.underflow)
        || (c == Inexact && f == fe.inexact);
      assert c in fe.Raised(x);
    } else {
      forall c ensures c !in fe.Raised(x) {
        InRaised(fe, x, c);
        assert fe.HostFlag(c) !in x * fe.AllExcept();
      }
    }
  }

  /** The host floating-point environment of one thread: the rounding
      register and the exception register, together with the platform's
      constants and the hardware operations that read and set them. */
  class HostEnv {
    const fe: FenvConsts
    const add: FloatOp
    const div: FloatOp
    var round: int
    var except: Bits

    /** The constants are well formed, and the rounding register always holds a
        mode the platform supports (fesetround never installs anything else). */
    predicate Valid()
      reads this
    {
      fe.Valid() && fe.IsMode(round)
    }

    constructor (fe: FenvConsts, add: FloatOp, div: FloatOp, round: int, except: Bits)
      requires fe.Valid() && fe.IsMode(round)
      ensures Valid()
      ensures this.fe == fe && this.add == add && this.div == div
      ensures this.round == round && this.except == except
    {
      this.fe, this.add, this.div := fe, add, div;
      this.round, this.except := round, except;
    }

    /** fesetround: installs a supported mode, and leaves the register alone otherwise. */
    method SetRound(mode: int)
      requires Valid()
      modifies this`round
      ensures Valid()
      ensures round == if fe.IsMode(mode) then mode else old(round)
    {
      if fe.IsMode(mode) {
        round := mode;
      }
    }

    /** pushround: returns the rounding register as it was on entry and
        installs the host mode that rm selects; a discriminant outside the
        four cases changes nothing. */
    method PushRound(rm: bv32) returns (curround: int)
      requires Valid()
      modifies this`round
      ensures Valid()
      ensures curround == old(round)
      ensures round == fe.Installed(rm, old(round))
    {
      curround := round;
      if rm == RMTONEAREST {
        SetRound(fe.toNearest);
      } else if rm == RMTOWARDZERO {
        SetRound(fe.towardZero);
      } else if rm == RMUPWARD {
        SetRound(fe.upward);
      } else if rm == RMDOWNWARD {
        SetRound(fe.downward);
      }
    }

    /** popround: reinstalls a saved rounding mode. */
    method PopRound(curround: int)
      requires Valid()
      modifies this`round
      ensures Valid()
      ensures round == if fe.IsMode(curround) then curround else old(round)
    {
      SetRound(curround);
    }

    /** clearexcept: clears every flag in FE_ALL_EXCEPT. */
    method ClearExcept()
      requires Valid()
      modifies this`except
      ensures Valid()
      ensures except == old(except) - fe.AllExcept()
    {
      except := except - fe.AllExcept();
    }

    /** getexcept: writes into the exception field of `out` the wire mask of
        the raised host flags; whatever the field held before is overwritten. */
    method GetExcept(out: Result32)
      requires Valid()
      modifies out`exception
      ensures out.exception == Encode(fe.Raised(except))
    {
      var exception := except * fe.AllExcept();
      RaisedUnderMask(fe, except);
      out.exception := EXNOEXCEPTION;
      if fe.divByZero in exception {
        out.exception := out.exception | EXDIVBYZERO;
      }
      if fe.invalid in exception {
        out.exception := out.exception | EXINVALID;
      }
      if fe.overflow in exception {
        out.exception := out.exception | EXOVERFLOW;
      }
      if fe.underflow in exception {
        out.exception := out.exception | EXUNDERFLOW;
      }
      if fe.inexact in exception {
        out.exception := out.exception | EXINEXACT;
      }
    }

    /** f32_add: push the requested mode, clear the flags, add under that
        mode (the hardware ORs the flags it raises into the register), report
        the flags into out.exception, pop the saved mode, store the sum.
        Only this call's flags reach the record, and the caller's rounding
        mode is back in place; the exception register is not restored. */
    method F32Add(a: bv32, b: bv32, rm: bv32, out: Result32)
      requires Valid()
      modifies this, out
      ensures Valid()
      ensures round == old(round)
      ensures except == (old(except) - fe.AllExcept()) + add(a, b, fe.Installed(rm, old(round))).raised
      ensures out.value == add(a, b, fe.Installed(rm, old(round))).bits
      ensures out.exception == Encode(fe.Raised(add(a, b, fe.Installed(rm, old(round))).raised))
    {
      var curround := PushRound(rm);
      ClearExcept();
      var res := add(a, b, round);
      except := except + res.raised;
      GetExcept(out);
      RaisedAfterClear(fe, old(except), res.raised);
      PopRound(curround);
      out.value := res.bits;
    }

    /** f32_div: the same sequence as f32_add, around a division. */
    method F32Div(a: bv32, b: bv32, rm: bv32, out: Result32)
      requires Valid()
      modifies this, out
      ensures Valid()
      ensures round == old(round)
      ensures except == (old(except) - fe.AllExcept()) + div(a, b, fe.Installed(rm, old(round))).raised
      ensures out.value == div(a, b, fe.Installed(rm, old(round))).bits
      ensures out.exception == Encode(fe.Raised(div(a, b, fe.Installed(rm, old(round))).raised))
    {
      var curround := PushRound(rm);
      ClearExcept();
      var res := div(a, b, round);
      except := except + res.raised;
      GetExcept(out);
      RaisedAfterClear(fe, old(except), res.raised);
      PopRound(curround);
      out.value := res.bits;
    }
  }
}
