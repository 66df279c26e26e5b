# Babylon global staking parameters parser, in Dafny

The Babylon phase-1 staking system reads its global parameters from a JSON
file as a list of versions. Each version says, from a given Bitcoin
activation height on:

- which covenant committee signs, and its quorum;
- the 4-byte tag of staking transactions;
- the allowed staking amounts and times;
- the unbonding time and fee;
- the confirmation depth;
- the staking cap, which is either an amount of satoshis or a cap height.

The parser in `parameters/parser/ParamsParser.go` validates each version on
its own. It then checks the versions against each other:

- version numbers go up by one;
- activation heights strictly increase;
- a fixed staking cap never drops below the last non-zero cap before it.

Finally, it answers "which version applies at this Bitcoin height?".

This project models that parser and proves what it guarantees:

- `wrappers.dfy` (`Wrappers`): `Option` and `Result`, for Go's `(value, error)` returns.
- `go_ints.dfy` (`GoInts`): Go's `uint16`/`uint32`/`uint64`/`int64` ranges and 64-bit wrap-around.
- `hex.dfy` (`Hex`): hex decoding of the tag and the covenant keys.
- `field_parsers.dfy` (`FieldParsers`): `checkPositive`, `parseTimeLockValue`, `parseConfirmationDepthValue`, `parseBtcValue`, `parseUint32`, `parseCap`.
- `version_parser.dfy` (`VersionParser`): `parseCovenantPubKeyFromHex`, `parseVersionedGlobalParams`.
- `params_parser.dfy` (`ParamsParser`): `FindLastStakingCap`, `ParseGlobalParams`.
- `height_lookup.dfy` (`HeightLookup`): `GetVersionedGlobalParamsByHeight`.

Each loop of the source is a method. Each method is proved equal to a
function with the same structure: a prefix-recursive function for a forward
loop, a function recursive from the end for a backward scan. The
properties are proved as lemmas about those functions. The acceptance
condition of a whole file is stated directly on its raw records
(`Acceptable`), and is proved to hold exactly when the parse succeeds.

The two sums in the source that can wrap (the version check and the dust
margin check) are modelled both ways. `Arithmetic.Intended` compares in
unbounded integers; `Arithmetic.AsWritten` compares the wrapped 64-bit sum,
as the Go code does. The parse functions take the mode as a parameter,
`Intended` by default, and the differences are stated under Findings.

Errors are datatypes with the values the Go messages print. The message
text itself is not modelled.

## Model

| member | source | states |
|---|---|---|
| GoInts.WrapInt64 | parameters/parser/ParamsParser.go:178 | the Go conversion of a uint64 to `btcutil.Amount` (int64): congruent modulo 2^64 and the identity on values that fit |
| GoInts.WrapUint64 | parameters/parser/ParamsParser.go:175 | uint64 addition wraps modulo 2^64 and is the identity on values that fit |
| Hex.DecodeString | parameters/parser/ParamsParser.go:82-85 | decoding succeeds exactly on an even-length string of hex digits, and yields half as many bytes |
| Hex.DecodeEncode | parameters/parser/ParamsParser.go:196-200 | decoding the hex encoding of any bytes gives the bytes back |
| Hex.EncodeDecode | parameters/parser/ParamsParser_test.go:123 | a lower-case hex string decodes, and re-encoding the result gives the string back |
| FieldParsers.CheckPositive | parameters/parser/ParamsParser.go:24-29 | accepts exactly the non-zero values; the only error is "not positive" |
| FieldParsers.ParseTimeLockValue | parameters/parser/ParamsParser.go:31-41 | succeeds exactly on 1..65535 with the same value; above 65535 it reports too large (range checked first), zero reports not positive |
| FieldParsers.ParseConfirmationDepthValue | parameters/parser/ParamsParser.go:43-53 | succeeds exactly on 2..65535 with the same value; above 65535 it reports too large, 0 and 1 report depth too small |
| FieldParsers.ParseBtcValue | parameters/parser/ParamsParser.go:55-65 | succeeds exactly on 1..MaxInt64 with the same positive amount; too large or not positive otherwise |
| FieldParsers.ParseUint32 | parameters/parser/ParamsParser.go:67-77 | succeeds exactly on 1..MaxUint32 with the same value; too large or not positive otherwise |
| FieldParsers.ParseCap | parameters/parser/ParamsParser.go:95-111 | both set and neither set are refused as such; success exactly when one is set and a staking cap fits an int64; the pair is returned unchanged with exactly one component non-zero |
| VersionParser.ParseCovenantPubKeyFromHex | parameters/parser/ParamsParser.go:79-93 | a key parses exactly when its hex decodes and the key parser accepts the decoded bytes, and is then what the key parser makes of them |
| VersionParser.ParseKeys | parameters/parser/ParamsParser.go:218-226 | succeeds exactly when every key parses; keeps their number and order; on failure the error is the first key that does not parse |
| VersionParser.FirstBadKeyReported | parameters/parser/ParamsParser.go:219-223 | when keys 0..i-1 parse and key i does not, key i is the error |
| VersionParser.ParseCovenantKeys | parameters/parser/ParamsParser.go:218-226 | the key loop with its early return computes ParseKeys |
| VersionParser.ParseVersionCorrect | parameters/parser/ParamsParser.go:195-312 | a record is accepted exactly when its raw fields satisfy every check; then the result has a 4-byte tag, 1 <= quorum <= number of keys, 0 < min <= max amount, min >= fee + 1000, 0 < min <= max time, depth >= 2, activation height > 0, exactly one of cap and cap height set, a set cap >= max amount, and every field holds its raw value |
| VersionParser.ParseVersionedGlobalParams | parameters/parser/ParamsParser.go:195-312 | the checks in source order with the key loop compute ParseVersion |
| VersionParser.TagRoundTrip | parameters/parser/ParamsParser_test.go:123 | an accepted record with a lower-case hex tag has an 8-character tag that re-encodes from the parsed bytes |
| VersionParser.TagLengthReportedFirst | parameters/parser/ParamsParser.go:196-204 | a tag that decodes to other than 4 bytes is reported with its length, whatever the other fields hold |
| VersionParser.ThreeByteTagRefused | parameters/parser/ParamsParser_test.go:238-246 | the tag "010203" is refused as a 3-byte tag |
| VersionParser.QuorumCheckedBeforeParse | parameters/parser/ParamsParser.go:206-216 | a quorum above the key count is reported as such before the quorum is range-checked and before any key is parsed |
| VersionParser.DustMarginOverflowAccepted | parameters/parser/ParamsParser.go:256 | with fee MaxInt64 the check as written accepts a minimum amount of 1 that the intended check refuses |
| VersionParser.DustMarginAsWrittenDiffers | parameters/parser/ParamsParser.go:256 | for positive amounts the check as written and the intended one disagree exactly when fee + 1000 overflows int64 |
| VersionParser.ParseVersionAsWrittenCorrect | parameters/parser/ParamsParser.go:195-312 | the parse with the dust check as written accepts exactly the records that pass every other check and the wrapping comparison |
| VersionParser.AsWrittenAgreesOnAccepted | parameters/parser/ParamsParser.go:256 | wherever the intended parse accepts a record, the parse as written gives the same parsed record |
| VersionParser.DustOverflowRecordAccepted | parameters/parser/ParamsParser.go:256-259 | a record valid in every other respect, with fee MaxInt64 and minimum 1, is accepted by the parse as written and refused with MinAmountBelowFeeMargin(1, MaxInt64) by the intended one |
| VersionParser.HeaderErrorsReported | parameters/parser/ParamsParser.go:196-224 | with every earlier check passing: an undecodable tag reports InvalidTag, no keys report EmptyCovenantKeys, a quorum outside 1..MaxUint32 reports InvalidQuorum with its cause, and a key that does not parse reports InvalidCovenantKey with the first such key |
| VersionParser.AmountErrorsReported | parameters/parser/ParamsParser.go:228-259 | with every earlier check passing, each of max amount, min amount, max < min, unbonding time, fee and the dust margin reports its own error with its cause or values |
| VersionParser.TimeErrorsReported | parameters/parser/ParamsParser.go:261-275 | with every earlier check passing, max staking time, min staking time and max < min each report their own error with its cause or values |
| VersionParser.TailErrorsReported | parameters/parser/ParamsParser.go:277-294 | with every earlier check passing, the depth reports InvalidConfirmationDepth with its cause, a zero activation height reports InvalidActivationHeight(NotPositive), a cap pair ParseCap refuses reports InvalidCap with its cause (both set, none set, too large), and a set cap below the max amount reports StakingCapBelowMaxAmount |
| ParamsParser.FindLastStakingCap | parameters/parser/ParamsParser.go:330-345 | the backward scan with its early returns computes LastStakingCap |
| ParamsParser.LastStakingCapIsLastNonZero | parameters/parser/ParamsParser.go:338-342 | the result is the cap of the last record whose cap is non-zero |
| ParamsParser.LastStakingCapZero | parameters/parser/ParamsParser.go:333-344 | the result is 0 exactly when every record's cap is 0 |
| ParamsParser.LastStakingCapWitness | parameters/parser/ParamsParser.go:338-342 | a non-zero result is the cap of some record after which every cap is zero |
| ParamsParser.LastStakingCapFits | parameters/parser/ParamsParser.go:178 | when every cap fits an int64 so does the result, so the conversion at line 178 is exact |
| ParamsParser.VersionWrapAccepted | parameters/parser/ParamsParser.go:175 | the version check as written accepts version 0 after MaxUint64; the intended check does not |
| ParamsParser.VersionFollowsAsWrittenDiffers | parameters/parser/ParamsParser.go:175 | the written and intended version checks disagree on exactly that pair |
| ParamsParser.CheckAgainstPreviousAsWritten | parameters/parser/ParamsParser.go:170-185 | with the version check as written, the checks against the record before also pass when the version wraps from MaxUint64 to 0, and otherwise exactly as intended |
| ParamsParser.VersionWrapFileAccepted | parameters/parser/ParamsParser.go:155-193 | a file of two valid records with versions MaxUint64 then 0, a later activation height and a non-decreasing cap is accepted by the parse as written and refused with NonSequentialVersion(0) by the intended one |
| ParamsParser.CheckAgainstPrevious | parameters/parser/ParamsParser.go:170-185 | when the last cap fits an int64, the checks pass exactly when the version follows, a set cap is at least the last cap and the activation height is later; every error carries the current version |
| ParamsParser.ParseGlobal | parameters/parser/ParamsParser.go:155-193 | an empty list is refused with EmptyVersions; a success has one parsed version per raw version |
| ParamsParser.FailureSticks | parameters/parser/ParamsParser.go:161-187 | once the loop has returned an error, later records do not change it |
| ParamsParser.AssembleKeepsResults | parameters/parser/ParamsParser.go:162-189 | the kept versions are the per-record parse results, in order |
| ParamsParser.InvalidRecordReported | parameters/parser/ParamsParser.go:162-167 | the first record that fails on its own ends the parse with its own error and its declared version |
| ParamsParser.CrossRecordFailureReported | parameters/parser/ParamsParser.go:170-184 | the first record that fails a check against the record before it ends the parse with that check's error |
| ParamsParser.RecordAppended | parameters/parser/ParamsParser.go:187 | a record that passes every check is appended to the kept versions |
| ParamsParser.ParseGlobalParams | parameters/parser/ParamsParser.go:155-193 | the loop with its early returns computes ParseGlobal |
| ParamsParser.LinkStep | parameters/parser/ParamsParser.go:170-184 | once earlier records are kept, the three checks against the record before pass exactly when the raw record links to the earlier ones |
| ParamsParser.AssembleStep | parameters/parser/ParamsParser.go:161-189 | one more iteration succeeds exactly when the earlier ones did and the record parses and links |
| ParamsParser.AssembleCharacterized | parameters/parser/ParamsParser.go:161-189 | the first n records are kept exactly when each parses and links to those before it |
| ParamsParser.LastCapDominates | parameters/parser/ParamsParser.go:172-181 | when every record keeps its cap at or above the last non-zero one, the last non-zero cap before i is at least every non-zero cap before i |
| ParamsParser.ParseEachAgrees | parameters/parser/ParamsParser.go:162-163 | each record's own result keeps its version, activation height and staking cap, and succeeds exactly when the record is valid |
| ParamsParser.RecordOkIffValid | parameters/parser/ParamsParser.go:162-184 | a record is kept exactly when it is valid on its own and links to the records before it |
| ParamsParser.AssembleAcceptable | parameters/parser/ParamsParser.go:161-189 | the loop over all records succeeds exactly when every record is valid and links to those before it |
| ParamsParser.ParseGlobalComplete | parameters/parser/ParamsParser.go:155-193 | the parse succeeds exactly on non-empty lists whose records are all valid and linked |
| ParamsParser.ParseGlobalConverts | parameters/parser/ParamsParser_test.go:116-131 | each parsed version satisfies the record invariants and holds its raw record's values |
| ParamsParser.ParseGlobalChained | parameters/parser/ParamsParser.go:175-184 | in a successful parse versions go up by one and activation heights strictly increase |
| ParamsParser.ParseGlobalCapsNonDecreasing | parameters/parser/ParamsParser.go:172-181 | in a successful parse a set staking cap is never below an earlier set one |
| ParamsParser.AssembleFirstFault | parameters/parser/ParamsParser.go:161-184 | with earlier records kept, the first faulty record decides the error, in source order: own parse, then version, then cap, then activation height |
| ParamsParser.ParseGlobalFirstFault | parameters/parser/ParamsParser_test.go:335-387 | the same for a whole file: an invalid record reports its own error; a valid one reports NonSequentialVersion, StakingCapDecreased with the last cap, or OverlappingActivation, whichever check fails first |
| HeightLookup.GetVersionedGlobalParamsByHeight | parameters/parser/ParamsParser.go:317-328 | the backward scan with its early return computes VersionAt |
| HeightLookup.VersionAtNone | parameters/parser/ParamsParser.go:321-327 | no version is found exactly when every version activates above the height |
| HeightLookup.VersionAtWitness | parameters/parser/ParamsParser.go:321-325 | a found version is active at the height and every later version activates above it |
| HeightLookup.VersionAtIsLastActive | parameters/parser/ParamsParser.go:321-325 | conversely the last version active at the height is the one found |
| HeightLookup.ChainedIncreasing | parameters/parser/ParamsParser.go:182 | with activation heights increasing between neighbours, they increase between any two positions |
| HeightLookup.LookupInRange | parameters/parser/ParamsParser.go:314-328 | a height from version i's activation up to just before the next activation selects version i |
| HeightLookup.LookupBelowFirst | parameters/parser/ParamsParser.go:314-328 | below the first activation height no version applies |
| HeightLookup.LookupAtActivations | parameters/parser/ParamsParser_test.go:151-188 | each version's activation height selects it, and the height just before selects the previous version |
| HeightLookup.ParsedLookup | parameters/parser/ParamsParser_test.go:138-190 | the same holds for the versions of any successfully parsed file |

## Left out

- File and JSON input (`NewParsedGlobalParamsFromFile`, `NewParsedGlobalParamsFromBytes`) is not modelled. The model starts from the deserialised `GlobalParams`.
- `btcec.ParsePubKey` is not part of this model. It is the parameter `parseKey`, and every property holds for any key parser.
- `encoding/hex` is not part of this model. `Hex.DecodeString` models its documented behaviour: an even number of hex digits of either case, two per byte. Go's distinction between an odd length and a bad digit is not kept; both are one `None`.
- Error messages are datatype values carrying what the message prints. The text, and the `%w` wrapping of a key parser's error, are not modelled.
- Pointers are not modelled. `ParsedGlobalParams` holds values, so aliasing between the returned versions and the caller's is not captured.
- The model computes every record's own parse result up front (`ParseEach`). The loop still looks at record i only after records 0 to i-1 are kept, and the method calls the parser inside the loop as the source does.
- The lookup method takes the parsed parameters by value. The source's `nil` receiver case is left out.
- VersionParser.ParseVersion, ParseHeader and ParseBody have no contract of their own. Acceptance and the parsed values are proved in `ParseVersionCorrect`; which error each failing check reports is proved in `HeaderErrorsReported`, `AmountErrorsReported`, `TimeErrorsReported` and `TailErrorsReported`, plus `TagLengthReportedFirst` and `QuorumCheckedBeforeParse` for the tag length and key-count checks.
- VersionParser.ParseVersionedGlobalParams computes the parse with the intended dust check of ParamsParser.go:256 (`Arithmetic.Intended`), not the wrapping comparison as written; the parse as written is `ParseVersion(raw, parseKey, AsWritten)` and is related to it in the lemmas named under Findings.
- ParamsParser.ParseGlobalParams computes the parse with the intended version check of ParamsParser.go:175 and the intended dust check of :256, not the wrapping comparisons as written; the parse as written is `ParseGlobal(p, parseKey, AsWritten)`.

## Findings

| source | as written | input that shows it | evidently intended | confidence | as-written member | corrected member |
|---|---|---|---|---|---|---|
| parameters/parser/ParamsParser.go:256 | `ubFee+MinUnbondingOutputValue` is an int64 sum that wraps, so for a fee above MaxInt64-1000 the sum is negative and the dust check passes | unbonding_fee = 9223372036854775807, min_staking_amount = 1 (max_staking_amount = 1): the record is accepted | the minimum staking amount covers the fee plus 1000 satoshis | not executed; high that the arithmetic wraps, low that such a fee occurs in practice | VersionParser.DustOverflowRecordAccepted | VersionParser.ParseVersionCorrect |
| parameters/parser/ParamsParser.go:175 | `pv.Version+1` is a uint64 sum that wraps | versions 18446744073709551615 then 0, otherwise valid: the pair is accepted as consecutive | each version is exactly one more than the previous | not executed; high that the arithmetic wraps, low that such versions occur in practice | ParamsParser.VersionWrapFileAccepted | ParamsParser.ParseGlobalChained |
