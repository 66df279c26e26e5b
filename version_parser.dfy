/**
 * Validation of one parameters record (parseVersionedGlobalParams): the raw
 * record read from the parameters file becomes a typed record, or the first
 * check that fails is reported.
 */
module VersionParser {
  import opened Wrappers
  import opened GoInts
  import opened Hex
  import opened FieldParsers

  /** Length of the decoded tag, in bytes. */
  const TagLen: nat := 4

  /** Smallest unbonding output value: below it the output would be Bitcoin dust. */
  const MinUnbondingOutputValue: int := 1000

  /** A record as deserialised from the parameters file: every number is a uint64. */
  datatype RawVersion = RawVersion(
    version: Uint64,
    activationHeight: Uint64,
    stakingCap: Uint64,
    capHeight: Uint64,
    tag: string,
    covenantPks: seq<string>,
    covenantQuorum: Uint64,
    unbondingTime: Uint64,
    unbondingFee: Uint64,
    maxStakingAmount: Uint64,
    minStakingAmount: Uint64,
    maxStakingTime: Uint64,
    minStakingTime: Uint64,
    confirmationDepth: Uint64)

  /** A secp256k1 public key, kept as the bytes it was parsed from. */
  datatype PublicKey = PublicKey(serialized: seq<Byte>)

  /** btcec.ParsePubKey: the curve-point validation, supplied by the caller. */
  type KeyParser = seq<Byte> -> Option<PublicKey>

  /** A validated record, with each field at the width the parser gives it. */
  datatype ParsedVersion = ParsedVersion(
    version: Uint64,
    activationHeight: Uint64,
    stakingCap: Amount,
    capHeight: Uint64,
    tag: seq<Byte>,
    covenantPks: seq<PublicKey>,
    covenantQuorum: Uint32,
    unbondingTime: Uint16,
    unbondingFee: Amount,
    maxStakingAmount: Amount,
    minStakingAmount: Amount,
    maxStakingTime: Uint16,
    minStakingTime: Uint16,
    confirmationDepth: Uint16)

  /** Why a record was refused, one constructor per check, in the order they run. */
  datatype VersionError =
    | InvalidTag
    | InvalidTagLength(got: nat)
    | EmptyCovenantKeys
    | QuorumExceedsKeys(quorum: Uint64, keys: nat)
    | InvalidQuorum(cause: FieldError)
    | InvalidCovenantKey(key: string)
    | InvalidMaxStakingAmount(cause: FieldError)
    | InvalidMinStakingAmount(cause: FieldError)
    | MaxAmountBelowMin(maxAmount: Amount, minAmount: Amount)
    | InvalidUnbondingTime(cause: FieldError)
    | InvalidUnbondingFee(cause: FieldError)
    | MinAmountBelowFeeMargin(minAmount: Amount, fee: Amount)
    | InvalidMaxStakingTime(cause: FieldError)
    | InvalidMinStakingTime(cause: FieldError)
    | MaxTimeBelowMin(maxTime: Uint16, minTime: Uint16)
    | InvalidConfirmationDepth(cause: FieldError)
    | InvalidActivationHeight(cause: FieldError)
    | InvalidCap(cause: FieldError)
    | StakingCapBelowMaxAmount(maxAmount: Amount, stakingCap: Amount)

  /** parseCovenantPubKeyFromHex: hex decoding, then the key parser. */
  function ParseCovenantPubKeyFromHex(pk: string, parseKey: KeyParser): (r: Option<PublicKey>)
    ensures r.Some? <==> DecodeString(pk).Some? && parseKey(DecodeString(pk).value).Some?
    ensures r.Some? ==> parseKey(DecodeString(pk).value) == r
  {
    match DecodeString(pk)
    case None => None
    case Some(bytes) => parseKey(bytes)
  }

  /**
   * The covenant keys, parsed in order; the first key that does not parse is
   * the error. Defined on prefixes, as the loop builds it.
   */
  function ParseKeys(pks: seq<string>, parseKey: KeyParser): (r: Result<seq<PublicKey>, string>)
    ensures r.Success? <==> forall i :: 0 <= i < |pks| ==> ParseCovenantPubKeyFromHex(pks[i], parseKey).Some?
    ensures r.Success? ==> |r.value| == |pks|
    ensures r.Success? ==> forall i :: 0 <= i < |pks| ==> ParseCovenantPubKeyFromHex(pks[i], parseKey) == Some(r.value[i])
    ensures r.Failure? ==>
      exists i :: (0 <= i < |pks| && r.error == pks[i]
        && ParseCovenantPubKeyFromHex(pks[i], parseKey).None?
        && forall j :: 0 <= j < i ==> ParseCovenantPubKeyFromHex(pks[j], parseKey).Some?)
    decreases |pks|
  {
    if |pks| == 0 then Success([])
    else
      var init := pks[..|pks| - 1];
      assert forall i :: 0 <= i < |init| ==> init[i] == pks[i];
      match ParseKeys(init, parseKey)
      case Failure(bad) => Failure(bad)
      case Success(keys) =>
        match ParseCovenantPubKeyFromHex(pks[|pks| - 1], parseKey)
        case None => Failure(pks[|pks| - 1])
        case Some(k) => Success(keys + [k])
  }

  /** The first key that does not parse is the one reported. */
  lemma FirstBadKeyReported(pks: seq<string>, parseKey: KeyParser, i: nat)
    requires i < |pks| && ParseKeys(pks[..i], parseKey).Success?
    requires ParseCovenantPubKeyFromHex(pks[i], parseKey).None?
    ensures ParseKeys(pks, parseKey) == Failure(pks[i])
  {
    assert forall j :: 0 <= j < i ==> pks[..i][j] == pks[j];
    var r := ParseKeys(pks, parseKey);
    assert r.Failure?;
    var k :| 0 <= k < |pks| && r.error == pks[k]
      && ParseCovenantPubKeyFromHex(pks[k], parseKey).None?
      && forall j :: 0 <= j < k ==> ParseCovenantPubKeyFromHex(pks[j], parseKey).Some?;
    assert k == i;
  }

  /** The covenant-key loop of parseVersionedGlobalParams. */
  method ParseCovenantKeys(pks: seq<string>, parseKey: KeyParser) returns (r: Result<seq<PublicKey>, string>)
    ensures r == ParseKeys(pks, parseKey)
  {
    var keys: seq<PublicKey> := [];
    var i := 0;
    while i < |pks|
      invariant 0 <= i <= |pks|
      invariant ParseKeys(pks[..i], parseKey) == Success(keys)
    {
      var pk := ParseCovenantPubKeyFromHex(pks[i], parseKey);
      assert pks[..i + 1][..i] == pks[..i];
      if pk.None? {
        FirstBadKeyReported(pks, parseKey, i);
        return Failure(pks[i]);
      }
      keys := keys + [pk.value];
      i := i + 1;
    }
    assert pks[..i] == pks;
    r := Success(keys);
  }

  /** The check of ParamsParser.go:256, in unbounded integers: min >= fee + 1000. */
  predicate DustMarginOk(minAmount: Amount, fee: Amount) {
    minAmount >= fee + MinUnbondingOutputValue
  }

  /** The same check as written, where fee + 1000 is an int64 sum that wraps. */
  predicate DustMarginOkAsWritten(minAmount: Amount, fee: Amount) {
    !(minAmount < WrapInt64(fee + MinUnbondingOutputValue))
  }

  /**
   * Which form of the two overflow-prone comparisons a parse uses: the
   * intended one in unbounded integers, or the one as written, where the
   * sum wraps (ParamsParser.go:175 and :256).
   */
  datatype Arithmetic = Intended | AsWritten

  /** The dust-margin check of ParamsParser.go:256 in the chosen form. */
  predicate DustMarginHolds(arith: Arithmetic, minAmount: Amount, fee: Amount) {
    match arith
    case Intended => DustMarginOk(minAmount, fee)
    case AsWritten => DustMarginOkAsWritten(minAmount, fee)
  }

  /** The checks before the key loop: tag, key count and quorum. */
  function ParseHeader(raw: RawVersion): Result<(seq<Byte>, Uint32), VersionError> {
    match DecodeString(raw.tag)
    case None => Failure(InvalidTag)
    case Some(tag) =>
      if |tag| != TagLen then Failure(InvalidTagLength(|tag|))
      else if |raw.covenantPks| == 0 then Failure(EmptyCovenantKeys)
      else if raw.covenantQuorum > |raw.covenantPks| then
        Failure(QuorumExceedsKeys(raw.covenantQuorum, |raw.covenantPks|))
      else
        match ParseUint32(raw.covenantQuorum)
        case Failure(e) => Failure(InvalidQuorum(e))
        case Success(quorum) => Success((tag, quorum))
  }

  /** The checks after the key loop: amounts, times, depth, activation height and cap. */
  function ParseBody(raw: RawVersion, tag: seq<Byte>, quorum: Uint32, keys: seq<PublicKey>,
                     arith: Arithmetic := Intended)
    : Result<ParsedVersion, VersionError>
  {
    match ParseBtcValue(raw.maxStakingAmount)
    case Failure(e) => Failure(InvalidMaxStakingAmount(e))
    case Success(maxAmount) =>
    match ParseBtcValue(raw.minStakingAmount)
    case Failure(e) => Failure(InvalidMinStakingAmount(e))
    case Success(minAmount) =>
    if maxAmount < minAmount then Failure(MaxAmountBelowMin(maxAmount, minAmount)) else
    match ParseTimeLockValue(raw.unbondingTime)
    case Failure(e) => Failure(InvalidUnbondingTime(e))
    case Success(ubTime) =>
    match ParseBtcValue(raw.unbondingFee)
    case Failure(e) => Failure(InvalidUnbondingFee(e))
    case Success(ubFee) =>
    if !DustMarginHolds(arith, minAmount, ubFee) then Failure(MinAmountBelowFeeMargin(minAmount, ubFee)) else
    match ParseTimeLockValue(raw.maxStakingTime)
    case Failure(e) => Failure(InvalidMaxStakingTime(e))
    case Success(maxTime) =>
    match ParseTimeLockValue(raw.minStakingTime)
    case Failure(e) => Failure(InvalidMinStakingTime(e))
    case Success(minTime) =>
    if maxTime < minTime then Failure(MaxTimeBelowMin(maxTime, minTime)) else
    match ParseConfirmationDepthValue(raw.confirmationDepth)
    case Failure(e) => Failure(InvalidConfirmationDepth(e))
    case Success(depth) =>
    match CheckPositive(raw.activationHeight)
    case Some(e) => Failure(InvalidActivationHeight(e))
    case None =>
    match ParseCap(raw.stakingCap, raw.capHeight)
    case Failure(e) => Failure(InvalidCap(e))
    case Success((stakingCap, capHeight)) =>
    if stakingCap != 0 && stakingCap < maxAmount then Failure(StakingCapBelowMaxAmount(maxAmount, stakingCap))
    else Success(ParsedVersion(
      raw.version, raw.activationHeight, stakingCap, capHeight, tag, keys, quorum,
      ubTime, ubFee, maxAmount, minAmount, maxTime, minTime, depth))
  }

  /** The tag is hex for exactly TagLen bytes. */
  predicate TagValid(raw: RawVersion) {
    DecodeString(raw.tag).Some? && |DecodeString(raw.tag).value| == TagLen
  }

  /** The quorum is positive, fits a uint32 and does not exceed the key count. */
  predicate QuorumValid(raw: RawVersion) {
    0 < raw.covenantQuorum <= |raw.covenantPks| && raw.covenantQuorum <= MaxUint32
  }

  /** Everything checked up to and including the key loop passes. */
  predicate HeaderValid(raw: RawVersion, parseKey: KeyParser) {
    && TagValid(raw)
    && QuorumValid(raw)
    && (forall i :: 0 <= i < |raw.covenantPks| ==> ParseCovenantPubKeyFromHex(raw.covenantPks[i], parseKey).Some?)
  }

  /** The amounts, the unbonding time and the fee parse, and max >= min. */
  predicate AmountsValid(raw: RawVersion) {
    && 0 < raw.minStakingAmount <= raw.maxStakingAmount <= MaxInt64
    && 0 < raw.unbondingTime <= MaxUint16
    && 0 < raw.unbondingFee <= MaxInt64
  }

  /** The staking times parse and max >= min. */
  predicate TimesValid(raw: RawVersion) {
    0 < raw.minStakingTime <= raw.maxStakingTime <= MaxUint16
  }

  /** The depth, activation height and cap checks pass. */
  predicate TailValid(raw: RawVersion) {
    && 2 <= raw.confirmationDepth <= MaxUint16
    && raw.activationHeight > 0
    && (raw.stakingCap == 0) != (raw.capHeight == 0)
    && (raw.stakingCap == 0 || raw.maxStakingAmount <= raw.stakingCap <= MaxInt64)
  }

  /** A raw record every check accepts, stated directly on the raw fields. */
  predicate RawValid(raw: RawVersion, parseKey: KeyParser) {
    && HeaderValid(raw, parseKey)
    && AmountsValid(raw)
    && raw.minStakingAmount >= raw.unbondingFee + MinUnbondingOutputValue
    && TimesValid(raw)
    && TailValid(raw)
  }

  /** The invariants every validated record satisfies. */
  predicate Valid(p: ParsedVersion) {
    && |p.tag| == TagLen
    && 1 <= p.covenantQuorum <= |p.covenantPks|
    && 0 < p.minStakingAmount <= p.maxStakingAmount
    && 0 < p.unbondingFee
    && p.minStakingAmount >= p.unbondingFee + MinUnbondingOutputValue
    && 0 < p.unbondingTime
    && 0 < p.minStakingTime <= p.maxStakingTime
    && p.confirmationDepth >= 2
    && p.activationHeight > 0
    && (p.stakingCap == 0) != (p.capHeight == 0)
    && (p.stakingCap == 0 || p.stakingCap >= p.maxStakingAmount)
  }

  /** Every field of p is the raw field after its type conversion. */
  predicate Converts(raw: RawVersion, p: ParsedVersion, parseKey: KeyParser) {
    && p.version == raw.version
    && p.activationHeight == raw.activationHeight
    && p.stakingCap == raw.stakingCap
    && p.capHeight == raw.capHeight
    && DecodeString(raw.tag) == Some(p.tag)
    && |p.covenantPks| == |raw.covenantPks|
    && (forall i :: 0 <= i < |p.covenantPks| ==>
          ParseCovenantPubKeyFromHex(raw.covenantPks[i], parseKey) == Some(p.covenantPks[i]))
    && p.covenantQuorum == raw.covenantQuorum
    && p.unbondingTime == raw.unbondingTime
    && p.unbondingFee == raw.unbondingFee
    && p.maxStakingAmount == raw.maxStakingAmount
    && p.minStakingAmount == raw.minStakingAmount
    && p.maxStakingTime == raw.maxStakingTime
    && p.minStakingTime == raw.minStakingTime
    && p.confirmationDepth == raw.confirmationDepth
  }

  /** parseVersionedGlobalParams as a function: header checks, key parsing, then the remaining checks. */
  function ParseVersion(raw: RawVersion, parseKey: KeyParser, arith: Arithmetic := Intended)
    : Result<ParsedVersion, VersionError>
  {
    match ParseHeader(raw)
    case Failure(e) => Failure(e)
    case Success((tag, quorum)) =>
      match ParseKeys(raw.covenantPks, parseKey)
      case Failure(bad) => Failure(InvalidCovenantKey(bad))
      case Success(keys) => ParseBody(raw, tag, quorum, keys, arith)
  }

  /**
   * A record is accepted exactly when RawValid holds of it, and the result
   * is then a Valid record holding the raw values.
   */
  lemma ParseVersionCorrect(raw: RawVersion, parseKey: KeyParser)
    ensures ParseVersion(raw, parseKey).Success? <==> RawValid(raw, parseKey)
    ensures ParseVersion(raw, parseKey).Success? ==>
      Valid(ParseVersion(raw, parseKey).value) && Converts(raw, ParseVersion(raw, parseKey).value, parseKey)
  {
  }

  /** parseVersionedGlobalParams: the checks in source order, with the key loop. */
  method ParseVersionedGlobalParams(raw: RawVersion, parseKey: KeyParser) returns (r: Result<ParsedVersion, VersionError>)
    ensures r == ParseVersion(raw, parseKey)
  {
    var header := ParseHeader(raw);
    if header.Failure? {
      return Failure(header.error);
    }
    var keys := ParseCovenantKeys(raw.covenantPks, parseKey);
    if keys.Failure? {
      return Failure(InvalidCovenantKey(keys.error));
    }
    r := ParseBody(raw, header.value.0, header.value.1, keys.value);
  }

  /** An accepted record written with a lower-case hex tag gives that tag back when its bytes are encoded again. */
  lemma TagRoundTrip(raw: RawVersion, parseKey: KeyParser)
    requires ParseVersion(raw, parseKey).Success?
    requires forall i :: 0 <= i < |raw.tag| ==> IsLowerHexChar(raw.tag[i])
    ensures EncodeToString(ParseVersion(raw, parseKey).value.tag) == raw.tag
    ensures |raw.tag| == 2 * TagLen
  {
    ParseVersionCorrect(raw, parseKey);
    EncodeDecode(raw.tag);
  }

  /** A tag of the wrong length is reported before anything else is looked at. */
  lemma TagLengthReportedFirst(raw: RawVersion, parseKey: KeyParser)
    requires DecodeString(raw.tag).Some? && |DecodeString(raw.tag).value| != TagLen
    ensures ParseVersion(raw, parseKey) == Failure(InvalidTagLength(|DecodeString(raw.tag).value|))
  {
  }

  /** The tag "010203" decodes to three bytes and is refused as such. */
  lemma ThreeByteTagRefused(raw: RawVersion, parseKey: KeyParser)
    requires raw.tag == "010203"
    ensures ParseVersion(raw, parseKey) == Failure(InvalidTagLength(3))
  {
    assert raw.tag[2..] == "0203";
    assert raw.tag[2..][2..] == "03";
    assert raw.tag[2..][2..][2..] == "";
  }

  /**
   * A quorum above the key count is reported as such, before the quorum is
   * parsed as a uint32 and before any key is parsed.
   */
  lemma QuorumCheckedBeforeParse(raw: RawVersion, parseKey: KeyParser)
    requires DecodeString(raw.tag).Some? && |DecodeString(raw.tag).value| == TagLen
    requires 0 < |raw.covenantPks| < raw.covenantQuorum
    ensures ParseVersion(raw, parseKey) == Failure(QuorumExceedsKeys(raw.covenantQuorum, |raw.covenantPks|))
  {
  }

  /** With the fee at MaxInt64, the check as written lets a minimum of 1 satoshi through. */
  lemma DustMarginOverflowAccepted()
    ensures DustMarginOkAsWritten(1, MaxInt64) && !DustMarginOk(1, MaxInt64)
  {
  }

  /** The written check and the intended one disagree exactly when fee + 1000 overflows int64. */
  lemma DustMarginAsWrittenDiffers(minAmount: Amount, fee: Amount)
    requires 0 < minAmount && 0 < fee
    ensures (DustMarginOkAsWritten(minAmount, fee) != DustMarginOk(minAmount, fee))
      <==> fee > MaxInt64 - MinUnbondingOutputValue
  {
  }

  /**
   * The parse as written accepts exactly the records that pass every other
   * check and the wrapping form of the dust-margin comparison.
   */
  lemma ParseVersionAsWrittenCorrect(raw: RawVersion, parseKey: KeyParser)
    ensures ParseVersion(raw, parseKey, AsWritten).Success? <==>
      && HeaderValid(raw, parseKey)
      && AmountsValid(raw)
      && DustMarginOkAsWritten(raw.minStakingAmount, raw.unbondingFee)
      && TimesValid(raw)
      && TailValid(raw)
  {
  }

  /** Wherever the intended parse accepts a record, the parse as written gives the same result. */
  lemma AsWrittenAgreesOnAccepted(raw: RawVersion, parseKey: KeyParser)
    requires ParseVersion(raw, parseKey).Success?
    ensures ParseVersion(raw, parseKey, AsWritten) == ParseVersion(raw, parseKey)
  {
    ParseVersionCorrect(raw, parseKey);
    assert WrapInt64(raw.unbondingFee + MinUnbondingOutputValue) == raw.unbondingFee + MinUnbondingOutputValue;
  }

  /**
   * A record that passes every other check, with the fee at MaxInt64 and a
   * minimum of 1 satoshi, is accepted by the parse as written and refused by
   * the intended one.
   */
  lemma DustOverflowRecordAccepted(raw: RawVersion, parseKey: KeyParser)
    requires HeaderValid(raw, parseKey) && AmountsValid(raw) && TimesValid(raw) && TailValid(raw)
    requires raw.unbondingFee == MaxInt64 && raw.minStakingAmount == 1
    ensures ParseVersion(raw, parseKey, AsWritten).Success?
    ensures ParseVersion(raw, parseKey) == Failure(MinAmountBelowFeeMargin(1, MaxInt64))
  {
    ParseVersionAsWrittenCorrect(raw, parseKey);
    DustMarginOverflowAccepted();
  }

  /** The checks before the body, each reported when every earlier one passes. */
  lemma HeaderErrorsReported(raw: RawVersion, parseKey: KeyParser)
    ensures DecodeString(raw.tag).None? ==> ParseVersion(raw, parseKey) == Failure(InvalidTag)
    ensures TagValid(raw) && |raw.covenantPks| == 0 ==> ParseVersion(raw, parseKey) == Failure(EmptyCovenantKeys)
    ensures (TagValid(raw) && 0 < |raw.covenantPks| && raw.covenantQuorum <= |raw.covenantPks|
             && !(0 < raw.covenantQuorum <= MaxUint32)) ==>
      ParseVersion(raw, parseKey) == Failure(InvalidQuorum(ParseUint32(raw.covenantQuorum).error))
    ensures TagValid(raw) && QuorumValid(raw) && ParseKeys(raw.covenantPks, parseKey).Failure? ==>
      ParseVersion(raw, parseKey) == Failure(InvalidCovenantKey(ParseKeys(raw.covenantPks, parseKey).error))
  {
  }

  /** The amount checks, each reported when every earlier check passes. */
  lemma AmountErrorsReported(raw: RawVersion, parseKey: KeyParser)
    requires HeaderValid(raw, parseKey)
    ensures !(0 < raw.maxStakingAmount <= MaxInt64) ==>
      ParseVersion(raw, parseKey) == Failure(InvalidMaxStakingAmount(ParseBtcValue(raw.maxStakingAmount).error))
    ensures (0 < raw.maxStakingAmount <= MaxInt64 && !(0 < raw.minStakingAmount <= MaxInt64)) ==>
      ParseVersion(raw, parseKey) == Failure(InvalidMinStakingAmount(ParseBtcValue(raw.minStakingAmount).error))
    ensures (0 < raw.maxStakingAmount <= MaxInt64 && 0 < raw.minStakingAmount <= MaxInt64
             && raw.maxStakingAmount < raw.minStakingAmount) ==>
      ParseVersion(raw, parseKey) == Failure(MaxAmountBelowMin(raw.maxStakingAmount, raw.minStakingAmount))
    ensures (0 < raw.minStakingAmount <= raw.maxStakingAmount <= MaxInt64
             && !(0 < raw.unbondingTime <= MaxUint16)) ==>
      ParseVersion(raw, parseKey) == Failure(InvalidUnbondingTime(ParseTimeLockValue(raw.unbondingTime).error))
    ensures (0 < raw.minStakingAmount <= raw.maxStakingAmount <= MaxInt64
             && 0 < raw.unbondingTime <= MaxUint16 && !(0 < raw.unbondingFee <= MaxInt64)) ==>
      ParseVersion(raw, parseKey) == Failure(InvalidUnbondingFee(ParseBtcValue(raw.unbondingFee).error))
    ensures AmountsValid(raw) && raw.minStakingAmount < raw.unbondingFee + MinUnbondingOutputValue ==>
      ParseVersion(raw, parseKey) == Failure(MinAmountBelowFeeMargin(raw.minStakingAmount, raw.unbondingFee))
  {
  }

  /** The staking-time checks, each reported when every earlier check passes. */
  lemma TimeErrorsReported(raw: RawVersion, parseKey: KeyParser)
    requires HeaderValid(raw, parseKey) && AmountsValid(raw)
    requires raw.minStakingAmount >= raw.unbondingFee + MinUnbondingOutputValue
    ensures !(0 < raw.maxStakingTime <= MaxUint16) ==>
      ParseVersion(raw, parseKey) == Failure(InvalidMaxStakingTime(ParseTimeLockValue(raw.maxStakingTime).error))
    ensures (0 < raw.maxStakingTime <= MaxUint16 && !(0 < raw.minStakingTime <= MaxUint16)) ==>
      ParseVersion(raw, parseKey) == Failure(InvalidMinStakingTime(ParseTimeLockValue(raw.minStakingTime).error))
    ensures (0 < raw.maxStakingTime <= MaxUint16 && 0 < raw.minStakingTime <= MaxUint16
             && raw.maxStakingTime < raw.minStakingTime) ==>
      ParseVersion(raw, parseKey) == Failure(MaxTimeBelowMin(raw.maxStakingTime, raw.minStakingTime))
  {
  }

  /** The depth, activation-height and cap checks, each reported when every earlier check passes. */
  lemma TailErrorsReported(raw: RawVersion, parseKey: KeyParser)
    requires HeaderValid(raw, parseKey) && AmountsValid(raw) && TimesValid(raw)
    requires raw.minStakingAmount >= raw.unbondingFee + MinUnbondingOutputValue
    ensures !(2 <= raw.confirmationDepth <= MaxUint16) ==>
      ParseVersion(raw, parseKey) == Failure(InvalidConfirmationDepth(ParseConfirmationDepthValue(raw.confirmationDepth).error))
    ensures 2 <= raw.confirmationDepth <= MaxUint16 && raw.activationHeight == 0 ==>
      ParseVersion(raw, parseKey) == Failure(InvalidActivationHeight(NotPositive))
    ensures (2 <= raw.confirmationDepth <= MaxUint16 && raw.activationHeight > 0
             && ParseCap(raw.stakingCap, raw.capHeight).Failure?) ==>
      ParseVersion(raw, parseKey) == Failure(InvalidCap(ParseCap(raw.stakingCap, raw.capHeight).error))
    ensures (2 <= raw.confirmationDepth <= MaxUint16 && raw.activationHeight > 0
             && ParseCap(raw.stakingCap, raw.capHeight).Success?
             && raw.stakingCap != 0 && raw.stakingCap < raw.maxStakingAmount) ==>
      ParseVersion(raw, parseKey) == Failure(StakingCapBelowMaxAmount(raw.maxStakingAmount, raw.stakingCap))
  {
  }
}
