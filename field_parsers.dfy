/**
 * The field parsers of ParamsParser.go: each takes one uint64 read from the
 * parameters file and returns a range-checked value of the width the parsed
 * record stores, or the reason it was refused.
 */
module FieldParsers {
  import opened Wrappers
  import opened GoInts

  /** The causes a single field can be refused for. */
  datatype FieldError =
    | NotPositive                            // "value must be positive"
    | TooLarge(value: Uint64, max: Uint64)   // above the target type's range
    | DepthTooSmall(value: Uint64)           // a confirmation depth below 2
    | BothCapsSet                            // staking cap and cap height both non-zero
    | NoCapSet                               // staking cap and cap height both zero

  /** checkPositive: only zero is refused. */
  function CheckPositive(value: Uint64): (err: Option<FieldError>)
    ensures err.None? <==> value > 0
    ensures err.Some? ==> err.value == NotPositive
  {
    if value == 0 then Some(NotPositive) else None
  }

  /** parseTimeLockValue: a timelock fits in a uint16 and is positive; the range is checked first. */
  function ParseTimeLockValue(timelock: Uint64): (r: Result<Uint16, FieldError>)
    ensures r.Success? <==> 0 < timelock <= MaxUint16
    ensures r.Success? ==> r.value == timelock
    ensures timelock > MaxUint16 ==> r == Failure(TooLarge(timelock, MaxUint16))
    ensures timelock == 0 ==> r == Failure(NotPositive)
  {
    if timelock > MaxUint16 then Failure(TooLarge(timelock, MaxUint16))
    else match CheckPositive(timelock)
      case Some(e) => Failure(e)
      case None => Success(timelock)
  }

  /** parseConfirmationDepthValue: a depth fits in a uint16 and is at least 2. */
  function ParseConfirmationDepthValue(depth: Uint64): (r: Result<Uint16, FieldError>)
    ensures r.Success? <==> 2 <= depth <= MaxUint16
    ensures r.Success? ==> r.value == depth && r.value >= 2
    ensures depth > MaxUint16 ==> r == Failure(TooLarge(depth, MaxUint16))
    ensures depth <= 1 ==> r == Failure(DepthTooSmall(depth))
  {
    if depth > MaxUint16 then Failure(TooLarge(depth, MaxUint16))
    else if depth <= 1 then Failure(DepthTooSmall(depth))
    else Success(depth)
  }

  /** parseBtcValue: an amount of satoshis fits in an int64 and is positive. */
  function ParseBtcValue(value: Uint64): (r: Result<Amount, FieldError>)
    ensures r.Success? <==> 0 < value <= MaxInt64
    ensures r.Success? ==> r.value == value && r.value > 0
    ensures value > MaxInt64 ==> r == Failure(TooLarge(value, MaxInt64))
    ensures value == 0 ==> r == Failure(NotPositive)
  {
    if value > MaxInt64 then Failure(TooLarge(value, MaxInt64))
    else match CheckPositive(value)
      case Some(e) => Failure(e)
      case None => Success(value)
  }

  /** parseUint32: a count fits in a uint32 and is positive. */
  function ParseUint32(value: Uint64): (r: Result<Uint32, FieldError>)
    ensures r.Success? <==> 0 < value <= MaxUint32
    ensures r.Success? ==> r.value == value && r.value > 0
    ensures value > MaxUint32 ==> r == Failure(TooLarge(value, MaxUint32))
    ensures value == 0 ==> r == Failure(NotPositive)
  {
    if value > MaxUint32 then Failure(TooLarge(value, MaxUint32))
    else match CheckPositive(value)
      case Some(e) => Failure(e)
      case None => Success(value)
  }

  /**
   * parseCap: exactly one of the staking cap and the cap height is set.
   * The result is the pair (stakingCap, capHeight) with the unset one zero.
   */
  function ParseCap(stakingCap: Uint64, capHeight: Uint64): (r: Result<(Amount, Uint64), FieldError>)
    ensures stakingCap != 0 && capHeight != 0 ==> r == Failure(BothCapsSet)
    ensures stakingCap == 0 && capHeight == 0 ==> r == Failure(NoCapSet)
    ensures capHeight == 0 && stakingCap > MaxInt64 ==> r == Failure(TooLarge(stakingCap, MaxInt64))
    ensures r.Success? <==> (stakingCap == 0) != (capHeight == 0) && stakingCap <= MaxInt64
    ensures r.Success? ==> (r.value.0 == 0) != (r.value.1 == 0)
    ensures r.Success? ==> r.value.0 == stakingCap && r.value.1 == capHeight
  {
    if stakingCap != 0 && capHeight != 0 then Failure(BothCapsSet)
    else if stakingCap == 0 && capHeight == 0 then Failure(NoCapSet)
    else if stakingCap != 0 then
      match ParseBtcValue(stakingCap)
      case Failure(e) => Failure(e)
      case Success(cap) => Success((cap, 0))
    else Success((0, capHeight))
  }
}
