# libfl: rounding-mode and exception-flag bookkeeping, in Dafny

libfl exposes single-precision floating-point operations computed by the
host's IEEE-754 hardware. A caller picks one of four rounding modes, and the
library reports the exception conditions the operation raised as a 32-bit
mask. This project models the part of libfl that does not depend on float
values. That part has three layers:

- **The wire contract (`libfl.h`, module `LibflH`).** This is the rounding-mode
  discriminants 0 to 3 and the exception bits: DivByZero is bit 0, Invalid
  bit 1, Overflow bit 2, Underflow bit 3 and Inexact bit 4. It also holds the
  `Result32` record (value, then exception) that the engine fills in. A mask
  is related to the set of conditions it reports by `Encode` and `Decode`,
  and the model proves that these two are inverses.
- **The C engine (`libfl.c`, module `LibflC`).** The host floating-point
  environment of one thread is the class `HostEnv`. It has a rounding
  register and an exception register. `pushround`, `popround`,
  `clearexcept`, `getexcept`, `f32_add` and `f32_div` are methods that
  update these registers and the caller's record in place. The `<fenv.h>`
  constants are platform-defined, so they are a parameter (`FenvConsts`).
  The model assumes three things about them. The four rounding modes are
  distinct, and the five exception macros are distinct single bits.
  FE_ALL_EXCEPT is exactly those five macros. It also assumes that the
  rounding register always holds one of the four modes (see "## Left out").
  An exception register
  value is represented by the set of positions of its set bits. So
  `x & FE_OVERFLOW` is non-zero exactly when the position of `FE_OVERFLOW`
  is in that set. The hardware addition and division are uninterpreted
  functions. Each takes two operands and a host rounding mode. It returns
  the result bits and the flags it raised, and the hardware ORs those flags
  into the exception register. `fesetround` installs a supported mode and
  leaves the register alone for anything else. So once the register holds a
  supported mode, no call in the model takes it out of that set.
- **The Rust wrapper (`lib.rs`, module `LibflRs`).** This is the
  `RoundingMode` and `Exception` enums with their discriminants, and the safe
  `f32_div`. `f32_div` builds a fresh zeroed `Result32`, passes the mode as
  its discriminant, and returns the record's two fields unchanged.

What is proved:

- Every call restores the caller's rounding mode, provided the register
  held one of the four modes on entry.
- The reported mask depends only on the flags this call's operation raised.
  Whatever the exception register held before, it does not leak into the
  result.
- Bit *i* of the mask is set exactly when host flag *i* is raised.
- The mask has no bits outside the five defined ones.
- The mask is zero exactly when no flag is raised.
- The four modes reach four distinct host modes.
- A discriminant outside 0 to 3 leaves the rounding register unchanged.

The engine does not restore the host exception register. After a call it
holds exactly this call's flags (plus any bits outside `FE_ALL_EXCEPT`). The
contracts of `F32Add` and `F32Div` state this.

This revision has no `has`, `only` or `is_none` queries, and no multiply or
conversion operations. The C side defines only `f32_add` and `f32_div`, and
the Rust side wraps only `f32_div`.

## Model

| member | source | states |
|---|---|---|
| LibflH.ConditionBit | src/libfl.h:14-18 | each condition's wire value is a single bit inside the five defined bits |
| LibflH.Encode | src/libfl.c:41-52 | a mask built from any set of conditions has no bit outside the five defined bits (so it is at most 31) |
| LibflH.EncodeBit | src/libfl.c:43-52 | a condition's bit is set in the encoded mask exactly when the condition is in the set, for each of the five conditions |
| LibflH.DecodeEncode | src/libfl.c:43-52 | decoding the mask of a set of conditions gives back that set |
| LibflH.EncodeDecode | src/libfl.h:13-18 | every mask that uses only the defined bits is the encoding of the conditions it reports |
| LibflH.EncodeNone | src/libfl.h:13 | the mask equals EXNOEXCEPTION (0) exactly when no condition is reported |
| LibflH.Result32.constructor | src/lib.rs:28-33 | Result32::new has value 0.0 (all bits zero) and exception None (0) |
| LibflC.FenvConsts.SwitchTarget | src/libfl.c:8-22 | the discriminants 0 to 3 select FE_TONEAREST, FE_TOWARDZERO, FE_UPWARD and FE_DOWNWARD, all supported modes; any other discriminant matches no case |
| LibflC.FenvConsts.HostFlag | src/libfl.c:43-51 | each condition is tested through a host flag that belongs to FE_ALL_EXCEPT |
| LibflC.RaisedUnderMask | src/libfl.c:39 | reading the register through FE_ALL_EXCEPT keeps every one of the five flags |
| LibflC.RaisedAfterClear | src/libfl.c:58-62 | after clearing FE_ALL_EXCEPT and raising new flags, the reported conditions are exactly those of the new flags, whatever the register held before |
| LibflC.MaskBitIffHostFlag | src/libfl.c:43-52 | bit i of getexcept's mask is set exactly when host flag i is raised |
| LibflC.MaskNoneIffNoFlag | src/libfl.c:41-52 | getexcept's mask is 0 exactly when none of the five host flags is raised |
| LibflC.HostEnv.PushRound | src/libfl.c:4-25 | returns the rounding register as it was on entry; afterwards the register holds the host mode for the discriminant, or is unchanged when the discriminant is not 0 to 3 |
| LibflC.HostEnv.PopRound | src/libfl.c:27-30 | reinstalls the saved mode whenever it is a supported one, as every value saved by PushRound is |
| LibflC.HostEnv.ClearExcept | src/libfl.c:32-35 | the exception register loses every FE_ALL_EXCEPT flag and keeps all other bits |
| LibflC.HostEnv.GetExcept | src/libfl.c:37-53 | overwrites out.exception with the encoding of exactly the raised conditions; its previous contents do not survive |
| LibflC.HostEnv.F32Add | src/libfl.c:55-66 | rounding register restored; out.value is the sum under the requested mode; out.exception reports exactly the flags the addition raised; the exception register holds the cleared old value plus those flags |
| LibflC.HostEnv.F32Div | src/libfl.c:68-79 | rounding register restored; out.value is the quotient under the requested mode; out.exception reports exactly the flags the division raised; the exception register holds the cleared old value plus those flags |
| LibflRs.Discriminant | src/lib.rs:3-8 | the discriminants are 0 to 3, agree with RMTONEAREST to RMDOWNWARD, and distinct modes get distinct values |
| LibflRs.DiscriminantInjective | src/lib.rs:3-8 | two modes with the same discriminant are the same mode |
| LibflRs.ExceptionValue | src/lib.rs:12-19 | None is 0; every other variant is a single bit, and each variant's value is the header's constant for the same condition (so all six values are distinct) |
| LibflRs.HostMode | src/lib.rs:51 | the discriminant of each mode reaches the switch arm that installs the same host mode, which is a supported one |
| LibflRs.HostModeInjective | src/libfl.c:8-22 | the four modes map to four distinct host rounding constants |
| LibflRs.F32Div | src/lib.rs:49-53 | the mode is passed as its discriminant; the returned value is the engine's quotient under that mode; the returned mask reports only this division's flags and does not depend on earlier calls or records; the caller's rounding mode is restored |

## Left out

- Floating-point numerics are left out. The addition and division are uninterpreted functions of the operands and the host rounding mode, so the expected values of the tests in src/lib.rs:56-103 (0.4761905 against 0.47619048, infinity on division by zero) are not modelled.
- The concrete values of FE_TONEAREST, FE_DIVBYZERO and the other `<fenv.h>` macros are platform-defined. The model takes them as parameters: four distinct modes and five distinct single bits.
- The exception register is represented by the set of positions of its set bits, not by an integer. The model uses bit tests (`&`), clearing and OR-ing, all of which this representation preserves. It uses no other arithmetic on the register.
- The `extern "C"` call, `repr(C)`, the `cty` types and the byte layout of `Result32` are ABI plumbing and are left out. The C struct and the Rust struct are one class whose fields are declared in the same order: value, then exception. Offsets and padding are not modelled.
- Float values are carried as their 32 raw bits (`bv32`). The record's value 0.0 is the all-zero pattern.
- The Rust `Exception` type is a plain enum, but the engine writes a combined mask such as Overflow|Inexact, which is not one of its variants. The returned exception is therefore modelled as the 32-bit mask, and the validity of Rust enum values is not modelled.
- The status returned by `fesetround` is ignored by the source and is not modelled. An unsupported mode simply leaves the register unchanged.
- Evaluation order is assumed to follow the source text. src/libfl.c does not enable `#pragma STDC FENV_ACCESS ON`. Under ISO C (C11, section 7.6.1), testing flags or changing the rounding mode in code compiled with FENV_ACCESS off is undefined behaviour. A compiler may therefore move `a + b` or `a / b` (src/libfl.c:60, 73) across `clearexcept`, `getexcept` or `popround`. The model runs each step strictly in order. So "flags from earlier calls never leak" and "the value is computed under the requested mode" are proved only for in-order execution.
- FE_ALL_EXCEPT is modelled as exactly the five exception macros. C defines it as the OR of every exception macro the platform provides, and a platform may provide more than five. The postconditions of `F32Add` and `F32Div` on the exception register rely on this. The returned mask does not: getexcept tests only the five macros.
- The rounding register is assumed always to hold one of FE_TONEAREST, FE_TOWARDZERO, FE_UPWARD and FE_DOWNWARD (`HostEnv.Valid`). ISO C (C11, section 7.6.3.1) lets `fegetround` return a negative value when the current direction has no macro or cannot be determined. That case is not modelled. In it, the `fesetround(curround)` of popround (src/libfl.c:29) would fail and leave the requested mode installed. So `round == old(round)` in `F32Add`, `F32Div` and `LibflRs.F32Div` is proved only under this assumption.
- The float environment is per thread in the host. Concurrency is out of scope. `HostEnv` is the environment of the calling thread.
