/**
 * Assembly of the whole parameters file (ParseGlobalParams): every record is
 * validated on its own, then checked against the record before it and
 * against the last non-zero staking cap among the raw records before it.
 */
module ParamsParser {
  import opened Wrappers
  import opened GoInts
  import opened VersionParser

  /** The deserialised parameters file. */
  datatype GlobalParams = GlobalParams(versions: seq<RawVersion>)

  /** The validated parameter set. */
  datatype ParsedGlobalParams = ParsedGlobalParams(versions: seq<ParsedVersion>)

  /** Why the parameter set was refused; each carries the declared version of the record at fault. */
  datatype GlobalError =
    | EmptyVersions
    | InvalidVersion(version: Uint64, cause: VersionError)
    | NonSequentialVersion(version: Uint64)
    | StakingCapDecreased(version: Uint64, lastStakingCap: Uint64, stakingCap: Amount)
    | OverlappingActivation(version: Uint64)

  /** What one record parses to, or why it does not. */
  type RecordResult = Result<ParsedVersion, VersionError>

  /**
   * The staking cap of the last record of prev whose cap is non-zero, or 0
   * when there is none. Records in cap-height mode have a zero staking cap
   * and are skipped.
   */
  function LastStakingCap(prev: seq<RawVersion>): Uint64
    decreases |prev|
  {
    if |prev| == 0 then 0
    else if prev[|prev| - 1].stakingCap > 0 then prev[|prev| - 1].stakingCap
    else LastStakingCap(prev[..|prev| - 1])
  }

  /** FindLastStakingCap: the backward scan over the raw records before the current one. */
  method FindLastStakingCap(prev: seq<RawVersion>) returns (c: Uint64)
    ensures c == LastStakingCap(prev)
  {
    if |prev| == 0 {
      return 0;
    }
    var i: int := |prev| - 1;
    assert prev[..i + 1] == prev;
    while i >= 0
      invariant -1 <= i < |prev|
      invariant LastStakingCap(prev) == LastStakingCap(prev[..i + 1])
    {
      if prev[i].stakingCap > 0 {
        return prev[i].stakingCap;
      }
      assert prev[..i + 1][..i] == prev[..i];
      i := i - 1;
    }
    return 0;
  }

  /** The scan finds the cap of the last record with a non-zero cap. */
  lemma {:induction false} LastStakingCapIsLastNonZero(prev: seq<RawVersion>, k: nat)
    requires k < |prev| && prev[k].stakingCap != 0
    requires forall j :: k < j < |prev| ==> prev[j].stakingCap == 0
    ensures LastStakingCap(prev) == prev[k].stakingCap
    decreases |prev|
  {
    if k < |prev| - 1 {
      var init := prev[..|prev| - 1];
      LastStakingCapIsLastNonZero(init, k);
    }
  }

  /** The scan gives 0 exactly when every record before has a zero cap. */
  lemma {:induction false} LastStakingCapZero(prev: seq<RawVersion>)
    ensures LastStakingCap(prev) == 0 <==> forall j :: 0 <= j < |prev| ==> prev[j].stakingCap == 0
    decreases |prev|
  {
    if |prev| > 0 {
      var init := prev[..|prev| - 1];
      LastStakingCapZero(init);
      assert forall j :: 0 <= j < |init| ==> init[j] == prev[j];
    }
  }

  /** A non-zero result is the cap of some record, after which every cap is zero. */
  lemma {:induction false} LastStakingCapWitness(prev: seq<RawVersion>) returns (k: nat)
    requires LastStakingCap(prev) != 0
    ensures k < |prev| && prev[k].stakingCap == LastStakingCap(prev)
    ensures forall j :: k < j < |prev| ==> prev[j].stakingCap == 0
    decreases |prev|
  {
    if prev[|prev| - 1].stakingCap > 0 {
      k := |prev| - 1;
    } else {
      var init := prev[..|prev| - 1];
      k := LastStakingCapWitness(init);
      assert init[k] == prev[k];
    }
  }

  /** When every cap fits an int64, so does the scan's result. */
  lemma LastStakingCapFits(prev: seq<RawVersion>)
    requires forall j :: 0 <= j < |prev| ==> prev[j].stakingCap <= MaxInt64
    ensures LastStakingCap(prev) <= MaxInt64
  {
    if LastStakingCap(prev) != 0 {
      var k := LastStakingCapWitness(prev);
    }
  }

  /** Versions go up by exactly one, in unbounded integers. */
  predicate VersionFollows(prev: Uint64, cur: Uint64) {
    cur == prev + 1
  }

  /** The version check of ParamsParser.go:175 as written: prev + 1 is a uint64 sum that wraps. */
  predicate VersionFollowsAsWritten(prev: Uint64, cur: Uint64) {
    cur == WrapUint64(prev + 1)
  }

  /** After the largest version the written check expects version 0. */
  lemma VersionWrapAccepted()
    ensures VersionFollowsAsWritten(MaxUint64, 0) && !VersionFollows(MaxUint64, 0)
  {
  }

  /** The written and the intended version checks disagree only on that one pair. */
  lemma VersionFollowsAsWrittenDiffers(prev: Uint64, cur: Uint64)
    ensures (VersionFollowsAsWritten(prev, cur) != VersionFollows(prev, cur))
      <==> prev == MaxUint64 && cur == 0
  {
  }

  /** The version check of ParamsParser.go:175 in the chosen form. */
  predicate VersionFollowsIn(arith: Arithmetic, prev: Uint64, cur: Uint64) {
    match arith
    case Intended => VersionFollows(prev, cur)
    case AsWritten => VersionFollowsAsWritten(prev, cur)
  }

  /**
   * The three checks of a record cv against the record pv before it, in
   * source order; lastCap is the raw uint64 the cap comparison converts to
   * an amount. When that conversion is exact, the checks pass exactly when
   * the version follows, the fixed cap is at least lastCap and the
   * activation height is later.
   */
  function CheckAgainstPrevious(pv: ParsedVersion, cv: ParsedVersion, lastCap: Uint64,
                                arith: Arithmetic := Intended): (err: Option<GlobalError>)
    ensures arith == Intended && lastCap <= MaxInt64 ==>
      (err.None? <==> cv.version == pv.version + 1
                      && (cv.stakingCap != 0 ==> cv.stakingCap >= lastCap)
                      && cv.activationHeight > pv.activationHeight)
    ensures err.Some? ==> !err.value.EmptyVersions? && err.value.version == cv.version
  {
    if !VersionFollowsIn(arith, pv.version, cv.version) then Some(NonSequentialVersion(cv.version))
    else if cv.stakingCap != 0 && cv.stakingCap < WrapInt64(lastCap) then
      Some(StakingCapDecreased(cv.version, lastCap, cv.stakingCap))
    else if cv.activationHeight <= pv.activationHeight then Some(OverlappingActivation(cv.version))
    else None
  }

  /**
   * The loop of ParseGlobalParams after its first n iterations, given what
   * each record parses to on its own (rs[i] for raw[i]): the records kept so
   * far, or the error that ended the loop. Record i's own result is only
   * looked at once records 0 to i - 1 have been kept.
   */
  function Assemble(raw: seq<RawVersion>, rs: seq<RecordResult>, n: nat, arith: Arithmetic := Intended)
    : (r: Result<seq<ParsedVersion>, GlobalError>)
    requires |rs| == |raw| && n <= |raw|
    ensures r.Success? ==> |r.value| == n
    decreases n
  {
    if n == 0 then Success([])
    else
      match Assemble(raw, rs, n - 1, arith)
      case Failure(e) => Failure(e)
      case Success(acc) =>
        var i := n - 1;
        match rs[i]
        case Failure(e) => Failure(InvalidVersion(raw[i].version, e))
        case Success(cv) =>
          if |acc| == 0 then Success([cv])
          else
            match CheckAgainstPrevious(acc[|acc| - 1], cv, LastStakingCap(raw[..i]), arith)
            case Some(e) => Failure(e)
            case None => Success(acc + [cv])
  }

  /** Every raw record parsed on its own, in order. */
  function ParseEach(raw: seq<RawVersion>, parseKey: KeyParser, arith: Arithmetic := Intended)
    : (rs: seq<RecordResult>)
    ensures |rs| == |raw|
  {
    if |raw| == 0 then [] else [ParseVersion(raw[0], parseKey, arith)] + ParseEach(raw[1..], parseKey, arith)
  }

  /** Entry i of ParseEach is what record i parses to. */
  lemma {:induction false} ParseEachAt(raw: seq<RawVersion>, parseKey: KeyParser, i: nat,
                                       arith: Arithmetic := Intended)
    requires i < |raw|
    ensures ParseEach(raw, parseKey, arith)[i] == ParseVersion(raw[i], parseKey, arith)
    decreases i
  {
    if i > 0 {
      ParseEachAt(raw[1..], parseKey, i - 1, arith);
    }
  }

  /** ParseGlobalParams as a function: an empty list is refused, otherwise the records are assembled in order. */
  function ParseGlobal(p: GlobalParams, parseKey: KeyParser, arith: Arithmetic := Intended)
    : (r: Result<ParsedGlobalParams, GlobalError>)
    ensures |p.versions| == 0 ==> r == Failure(EmptyVersions)
    ensures r.Success? ==> |r.value.versions| == |p.versions| > 0
  {
    if |p.versions| == 0 then Failure(EmptyVersions)
    else
      match Assemble(p.versions, ParseEach(p.versions, parseKey, arith), |p.versions|, arith)
      case Failure(e) => Failure(e)
      case Success(vs) => Success(ParsedGlobalParams(vs))
  }

  /** Once the loop has failed, later iterations never run: the error stays what it was. */
  lemma {:induction false} FailureSticks(raw: seq<RawVersion>, rs: seq<RecordResult>, n: nat, m: nat)
    requires |rs| == |raw| && n <= m <= |raw|
    requires Assemble(raw, rs, n).Failure?
    ensures Assemble(raw, rs, m) == Assemble(raw, rs, n)
    decreases m
  {
    if m > n {
      FailureSticks(raw, rs, n, m - 1);
    }
  }

  /** The records kept are the parse results, in order. */
  lemma {:induction false} AssembleKeepsResults(raw: seq<RawVersion>, rs: seq<RecordResult>, n: nat)
    requires |rs| == |raw| && n <= |raw| && Assemble(raw, rs, n).Success?
    ensures forall i :: 0 <= i < n ==> rs[i] == Success(Assemble(raw, rs, n).value[i])
    decreases n
  {
    if n > 0 {
      AssembleKeepsResults(raw, rs, n - 1);
    }
  }

  /** The first record that fails on its own is reported, tagged with its declared version. */
  lemma InvalidRecordReported(raw: seq<RawVersion>, rs: seq<RecordResult>, i: nat)
    requires |rs| == |raw| && i < |raw| && Assemble(raw, rs, i).Success?
    requires rs[i].Failure?
    ensures Assemble(raw, rs, |raw|) == Failure(InvalidVersion(raw[i].version, rs[i].error))
  {
    FailureSticks(raw, rs, i + 1, |raw|);
  }

  /** The first record that fails a check against the record before it is reported with that check's error. */
  lemma CrossRecordFailureReported(raw: seq<RawVersion>, rs: seq<RecordResult>, i: nat)
    requires |rs| == |raw| && i < |raw| && Assemble(raw, rs, i).Success? && i > 0
    requires rs[i].Success?
    requires CheckAgainstPrevious(Assemble(raw, rs, i).value[i - 1], rs[i].value, LastStakingCap(raw[..i])).Some?
    ensures Assemble(raw, rs, |raw|)
              == Failure(CheckAgainstPrevious(Assemble(raw, rs, i).value[i - 1], rs[i].value, LastStakingCap(raw[..i])).value)
  {
    FailureSticks(raw, rs, i + 1, |raw|);
  }

  /** A record that passes every check is appended. */
  lemma RecordAppended(raw: seq<RawVersion>, rs: seq<RecordResult>, i: nat)
    requires |rs| == |raw| && i < |raw| && Assemble(raw, rs, i).Success?
    requires rs[i].Success?
    requires i > 0 ==>
      CheckAgainstPrevious(Assemble(raw, rs, i).value[i - 1], rs[i].value, LastStakingCap(raw[..i])).None?
    ensures Assemble(raw, rs, i + 1) == Success(Assemble(raw, rs, i).value + [rs[i].value])
  {
    var acc := Assemble(raw, rs, i).value;
    assert acc == [] ==> acc + [rs[i].value] == [rs[i].value];
  }

  /** ParseGlobalParams: the loop that appends each validated record, with early exits. */
  method ParseGlobalParams(p: GlobalParams, parseKey: KeyParser) returns (r: Result<ParsedGlobalParams, GlobalError>)
    ensures r == ParseGlobal(p, parseKey)
  {
    if |p.versions| == 0 {
      return Failure(EmptyVersions);
    }
    ghost var rs := ParseEach(p.versions, parseKey);
    var parsedVersions: seq<ParsedVersion> := [];
    var i := 0;
    while i < |p.versions|
      invariant 0 <= i <= |p.versions|
      invariant Assemble(p.versions, rs, i) == Success(parsedVersions)
      invariant |parsedVersions| == i
    {
      var v := p.versions[i];
      var cv := ParseVersionedGlobalParams(v, parseKey);
      ParseEachAt(p.versions, parseKey, i);
      assert rs[i] == cv;
      if cv.Failure? {
        InvalidRecordReported(p.versions, rs, i);
        return Failure(InvalidVersion(v.version, cv.error));
      }
      if |parsedVersions| > 0 {
        var pv := parsedVersions[|parsedVersions| - 1];
        var lastStakingCap := FindLastStakingCap(p.versions[..i]);
        var err := CheckAgainstPrevious(pv, cv.value, lastStakingCap);
        if err.Some? {
          CrossRecordFailureReported(p.versions, rs, i);
          return Failure(err.value);
        }
      }
      RecordAppended(p.versions, rs, i);
      parsedVersions := parsedVersions + [cv.value];
      i := i + 1;
    }
    return Success(ParsedGlobalParams(parsedVersions));
  }

  /**
   * How raw record i links to the records before it: the next version and
   * a later activation height than record i - 1, and a fixed cap no lower
   * than the last non-zero cap among the raw records before it.
   */
  predicate LinksAt(raw: seq<RawVersion>, i: nat)
    requires i < |raw|
  {
    && (i > 0 ==> raw[i].version == raw[i - 1].version + 1 && raw[i].activationHeight > raw[i - 1].activationHeight)
    && (raw[i].stakingCap != 0 ==> raw[i].stakingCap >= LastStakingCap(raw[..i]))
  }

  /** Each record's own result succeeds and holds the raw version, activation height and staking cap. */
  predicate ResultsAgree(raw: seq<RawVersion>, rs: seq<RecordResult>)
    requires |rs| == |raw|
  {
    forall i :: 0 <= i < |rs| && rs[i].Success? ==>
      && rs[i].value.version == raw[i].version
      && rs[i].value.activationHeight == raw[i].activationHeight
      && rs[i].value.stakingCap == raw[i].stakingCap
  }

  /** As written, the checks against the record before also let the version wrap from MaxUint64 to 0. */
  lemma CheckAgainstPreviousAsWritten(pv: ParsedVersion, cv: ParsedVersion, lastCap: Uint64)
    requires lastCap <= MaxInt64
    ensures CheckAgainstPrevious(pv, cv, lastCap, AsWritten).None? <==>
      && (cv.version == pv.version + 1 || (pv.version == MaxUint64 && cv.version == 0))
      && (cv.stakingCap != 0 ==> cv.stakingCap >= lastCap)
      && cv.activationHeight > pv.activationHeight
  {
  }

  /**
   * Once records 0 to i - 1 are kept and record i parses, the checks against
   * the record before pass exactly when record i links to the records before it.
   */
  lemma LinkStep(raw: seq<RawVersion>, rs: seq<RecordResult>, i: nat)
    requires |rs| == |raw| && 0 < i < |raw| && ResultsAgree(raw, rs)
    requires Assemble(raw, rs, i).Success? && rs[i].Success?
    ensures (CheckAgainstPrevious(Assemble(raw, rs, i).value[i - 1], rs[i].value, LastStakingCap(raw[..i])).None?
             <==> LinksAt(raw, i))
  {
    AssembleKeepsResults(raw, rs, i);
    var prev := raw[..i];
    assert forall j :: 0 <= j < |prev| ==> prev[j] == raw[j] && rs[j].Success?;
    LastStakingCapFits(prev);
  }

  /** Record i parses on its own and links to the records before it. */
  predicate RecordOk(raw: seq<RawVersion>, rs: seq<RecordResult>, i: nat)
    requires |rs| == |raw| && i < |raw|
  {
    rs[i].Success? && LinksAt(raw, i)
  }

  /** One more iteration keeps records 0 to i exactly when it kept 0 to i - 1 and record i parses and links. */
  lemma AssembleStep(raw: seq<RawVersion>, rs: seq<RecordResult>, i: nat)
    requires |rs| == |raw| && i < |raw| && ResultsAgree(raw, rs)
    ensures Assemble(raw, rs, i + 1).Success? <==> Assemble(raw, rs, i).Success? && RecordOk(raw, rs, i)
  {
    if Assemble(raw, rs, i).Success? && rs[i].Success? {
      if i > 0 {
        LinkStep(raw, rs, i);
      } else {
        assert raw[..0] == [];
      }
    }
  }

  /** The loop keeps its first n records exactly when each parses and links to those before it. */
  lemma {:induction false} AssembleCharacterized(raw: seq<RawVersion>, rs: seq<RecordResult>, n: nat)
    requires |rs| == |raw| && n <= |raw| && ResultsAgree(raw, rs)
    ensures Assemble(raw, rs, n).Success? <==> forall i :: 0 <= i < n ==> RecordOk(raw, rs, i)
    decreases n
  {
    if n > 0 {
      AssembleCharacterized(raw, rs, n - 1);
      AssembleStep(raw, rs, n - 1);
      assert (forall i :: 0 <= i < n ==> RecordOk(raw, rs, i))
        <==> (forall i :: 0 <= i < n - 1 ==> RecordOk(raw, rs, i)) && RecordOk(raw, rs, n - 1);
    }
  }

  /** The caps the first n raw records keep never drop below the last non-zero one before them. */
  predicate CapsKept(raw: seq<RawVersion>, n: nat)
    requires n <= |raw|
  {
    forall i :: 0 <= i < n ==> raw[i].stakingCap != 0 ==> raw[i].stakingCap >= LastStakingCap(raw[..i])
  }

  /** The last non-zero cap before record i is at least every non-zero cap before it. */
  lemma {:induction false} LastCapDominates(raw: seq<RawVersion>, n: nat, i: nat, j: nat)
    requires n <= |raw| && CapsKept(raw, n)
    requires j < i <= n && raw[j].stakingCap != 0
    ensures raw[j].stakingCap <= LastStakingCap(raw[..i])
    decreases i
  {
    var prev := raw[..i];
    assert prev[j] == raw[j];
    LastStakingCapZero(prev);
    var k := LastStakingCapWitness(prev);
    assert prev[k] == raw[k];
    if k > j {
      LastCapDominates(raw, n, k, j);
    }
  }

  /** Consecutive validated records: the version goes up by one and the activation height strictly increases. */
  predicate Chained(vs: seq<ParsedVersion>) {
    forall i :: 0 < i < |vs| ==>
      vs[i].version == vs[i - 1].version + 1 && vs[i].activationHeight > vs[i - 1].activationHeight
  }

  /** Among validated records, a fixed staking cap is never below an earlier fixed one. */
  predicate FixedCapsNonDecreasing(vs: seq<ParsedVersion>) {
    forall j, i :: 0 <= j < i < |vs| && vs[j].stakingCap != 0 && vs[i].stakingCap != 0 ==>
      vs[j].stakingCap <= vs[i].stakingCap
  }

  /** A parameters file the parse accepts, stated on its raw records. */
  predicate Acceptable(raw: seq<RawVersion>, parseKey: KeyParser) {
    && |raw| > 0
    && forall i :: 0 <= i < |raw| ==> RawValid(raw[i], parseKey) && LinksAt(raw, i)
  }

  /** Each record's own result agrees with ParseVersionCorrect's description of it. */
  lemma ParseEachAgrees(raw: seq<RawVersion>, parseKey: KeyParser)
    ensures ResultsAgree(raw, ParseEach(raw, parseKey))
    ensures forall i :: 0 <= i < |raw| ==>
      (ParseEach(raw, parseKey)[i].Success? <==> RawValid(raw[i], parseKey))
  {
    var rs := ParseEach(raw, parseKey);
    forall i | 0 <= i < |raw|
      ensures rs[i].Success? ==>
        (rs[i].value.version == raw[i].version
         && rs[i].value.activationHeight == raw[i].activationHeight
         && rs[i].value.stakingCap == raw[i].stakingCap)
      ensures rs[i].Success? <==> RawValid(raw[i], parseKey)
    {
      ParseEachAt(raw, parseKey, i);
      ParseVersionCorrect(raw[i], parseKey);
    }
  }

  /** A record of the file is kept by the loop exactly when it is valid on its own and links to those before it. */
  lemma RecordOkIffValid(raw: seq<RawVersion>, parseKey: KeyParser)
    ensures forall i :: 0 <= i < |raw| ==>
      (RecordOk(raw, ParseEach(raw, parseKey), i) <==> RawValid(raw[i], parseKey) && LinksAt(raw, i))
  {
    ParseEachAgrees(raw, parseKey);
  }

  /** The loop over all records of a file succeeds exactly when each is valid and links to those before it. */
  lemma AssembleAcceptable(raw: seq<RawVersion>, parseKey: KeyParser)
    ensures Assemble(raw, ParseEach(raw, parseKey), |raw|).Success?
      <==> forall i :: 0 <= i < |raw| ==> RawValid(raw[i], parseKey) && LinksAt(raw, i)
  {
    ParseEachAgrees(raw, parseKey);
    AssembleCharacterized(raw, ParseEach(raw, parseKey), |raw|);
    RecordOkIffValid(raw, parseKey);
  }

  /** The parse succeeds exactly on the parameter files Acceptable describes. */
  lemma ParseGlobalComplete(p: GlobalParams, parseKey: KeyParser)
    ensures ParseGlobal(p, parseKey).Success? <==> Acceptable(p.versions, parseKey)
  {
    AssembleAcceptable(p.versions, parseKey);
  }

  /** A successful parse yields one validated record per raw record, holding that record's values. */
  lemma ParseGlobalConverts(p: GlobalParams, parseKey: KeyParser)
    requires ParseGlobal(p, parseKey).Success?
    ensures var out := ParseGlobal(p, parseKey).value.versions;
      forall i :: 0 <= i < |out| ==> Valid(out[i]) && Converts(p.versions[i], out[i], parseKey)
  {
    var raw := p.versions;
    var out := ParseGlobal(p, parseKey).value.versions;
    AssembleKeepsResults(raw, ParseEach(raw, parseKey), |raw|);
    forall i | 0 <= i < |out|
      ensures Valid(out[i]) && Converts(raw[i], out[i], parseKey)
    {
      ParseEachAt(raw, parseKey, i);
      ParseVersionCorrect(raw[i], parseKey);
    }
  }

  /** In a successful parse, versions are consecutive and activation heights strictly increase. */
  lemma ParseGlobalChained(p: GlobalParams, parseKey: KeyParser)
    requires ParseGlobal(p, parseKey).Success?
    ensures Chained(ParseGlobal(p, parseKey).value.versions)
  {
    var raw := p.versions;
    var out := ParseGlobal(p, parseKey).value.versions;
    ParseGlobalComplete(p, parseKey);
    ParseGlobalConverts(p, parseKey);
    forall i | 0 < i < |out|
      ensures out[i].version == out[i - 1].version + 1 && out[i].activationHeight > out[i - 1].activationHeight
    {
      assert LinksAt(raw, i);
      assert Converts(raw[i], out[i], parseKey) && Converts(raw[i - 1], out[i - 1], parseKey);
    }
  }

  /** In a successful parse, a fixed staking cap is never lower than an earlier fixed one. */
  lemma ParseGlobalCapsNonDecreasing(p: GlobalParams, parseKey: KeyParser)
    requires ParseGlobal(p, parseKey).Success?
    ensures FixedCapsNonDecreasing(ParseGlobal(p, parseKey).value.versions)
  {
    var raw := p.versions;
    var out := ParseGlobal(p, parseKey).value.versions;
    ParseGlobalComplete(p, parseKey);
    ParseGlobalConverts(p, parseKey);
    assert CapsKept(raw, |raw|) by {
      forall i | 0 <= i < |raw|
        ensures raw[i].stakingCap != 0 ==> raw[i].stakingCap >= LastStakingCap(raw[..i])
      {
        assert LinksAt(raw, i);
      }
    }
    forall j, i | 0 <= j < i < |out| && out[j].stakingCap != 0 && out[i].stakingCap != 0
      ensures out[j].stakingCap <= out[i].stakingCap
    {
      assert Converts(raw[i], out[i], parseKey) && Converts(raw[j], out[j], parseKey);
      LastCapDominates(raw, |raw|, i, j);
      assert LinksAt(raw, i);
    }
  }

  /**
   * When records 0 to i - 1 are kept and record i is the first at fault, the
   * loop's error is decided by record i alone, with the checks in source
   * order: its own parse, then the version, then the cap, then the
   * activation height.
   */
  lemma AssembleFirstFault(raw: seq<RawVersion>, rs: seq<RecordResult>, i: nat)
    requires |rs| == |raw| && i < |raw| && ResultsAgree(raw, rs)
    requires forall j :: 0 <= j < i ==> RecordOk(raw, rs, j)
    ensures rs[i].Failure? ==>
      Assemble(raw, rs, |raw|) == Failure(InvalidVersion(raw[i].version, rs[i].error))
    ensures rs[i].Success? && i > 0 && raw[i].version != raw[i - 1].version + 1 ==>
      Assemble(raw, rs, |raw|) == Failure(NonSequentialVersion(raw[i].version))
    ensures (rs[i].Success? && i > 0 && raw[i].version == raw[i - 1].version + 1
             && raw[i].stakingCap != 0 && raw[i].stakingCap < LastStakingCap(raw[..i])) ==>
      Assemble(raw, rs, |raw|)
        == Failure(StakingCapDecreased(raw[i].version, LastStakingCap(raw[..i]), raw[i].stakingCap))
    ensures (rs[i].Success? && i > 0 && raw[i].version == raw[i - 1].version + 1
             && (raw[i].stakingCap != 0 ==> raw[i].stakingCap >= LastStakingCap(raw[..i]))
             && raw[i].activationHeight <= raw[i - 1].activationHeight) ==>
      Assemble(raw, rs, |raw|) == Failure(OverlappingActivation(raw[i].version))
  {
    AssembleCharacterized(raw, rs, i);
    if rs[i].Failure? {
      InvalidRecordReported(raw, rs, i);
    } else if i > 0 {
      AssembleKeepsResults(raw, rs, i);
      var prev := raw[..i];
      assert forall j :: 0 <= j < |prev| ==> prev[j] == raw[j] && rs[j].Success?;
      LastStakingCapFits(prev);
      if !LinksAt(raw, i) {
        CrossRecordFailureReported(raw, rs, i);
      }
    }
  }

  /**
   * For the parse of a whole file: when records 0 to i - 1 are acceptable,
   * an invalid record i is reported with its own error, and a valid one
   * that breaks a link is reported with the first link check it fails.
   */
  lemma ParseGlobalFirstFault(p: GlobalParams, parseKey: KeyParser, i: nat)
    requires i < |p.versions|
    requires forall j :: 0 <= j < i ==> RawValid(p.versions[j], parseKey) && LinksAt(p.versions, j)
    ensures var raw := p.versions;
      && (!RawValid(raw[i], parseKey) ==>
            ParseGlobal(p, parseKey) == Failure(InvalidVersion(raw[i].version, ParseVersion(raw[i], parseKey).error)))
      && (RawValid(raw[i], parseKey) && i > 0 && raw[i].version != raw[i - 1].version + 1 ==>
            ParseGlobal(p, parseKey) == Failure(NonSequentialVersion(raw[i].version)))
      && (RawValid(raw[i], parseKey) && i > 0 && raw[i].version == raw[i - 1].version + 1
          && raw[i].stakingCap != 0 && raw[i].stakingCap < LastStakingCap(raw[..i]) ==>
            ParseGlobal(p, parseKey)
              == Failure(StakingCapDecreased(raw[i].version, LastStakingCap(raw[..i]), raw[i].stakingCap)))
      && (RawValid(raw[i], parseKey) && i > 0 && raw[i].version == raw[i - 1].version + 1
          && (raw[i].stakingCap != 0 ==> raw[i].stakingCap >= LastStakingCap(raw[..i]))
          && raw[i].activationHeight <= raw[i - 1].activationHeight ==>
            ParseGlobal(p, parseKey) == Failure(OverlappingActivation(raw[i].version)))
  {
    var raw := p.versions;
    var rs := ParseEach(raw, parseKey);
    ParseEachAgrees(raw, parseKey);
    RecordOkIffValid(raw, parseKey);
    ParseEachAt(raw, parseKey, i);
    AssembleFirstFault(raw, rs, i);
  }

  /**
   * Two records that each parse, with versions MaxUint64 then 0, a later
   * activation height and a cap that does not decrease: the parse as written
   * accepts the file, the intended one refuses the second version.
   */
  lemma VersionWrapFileAccepted(p: GlobalParams, parseKey: KeyParser)
    requires |p.versions| == 2
    requires RawValid(p.versions[0], parseKey) && RawValid(p.versions[1], parseKey)
    requires p.versions[0].version == MaxUint64 && p.versions[1].version == 0
    requires p.versions[0].activationHeight < p.versions[1].activationHeight
    requires p.versions[1].stakingCap != 0 ==> p.versions[1].stakingCap >= LastStakingCap(p.versions[..1])
    ensures ParseGlobal(p, parseKey, AsWritten).Success?
    ensures ParseGlobal(p, parseKey) == Failure(NonSequentialVersion(0))
  {
    var raw := p.versions;
    ParseVersionCorrect(raw[0], parseKey);
    ParseVersionCorrect(raw[1], parseKey);
    AsWrittenAgreesOnAccepted(raw[0], parseKey);
    AsWrittenAgreesOnAccepted(raw[1], parseKey);
    ParseEachAt(raw, parseKey, 0);
    ParseEachAt(raw, parseKey, 1);
    ParseEachAt(raw, parseKey, 0, AsWritten);
    ParseEachAt(raw, parseKey, 1, AsWritten);
    LastStakingCapFits(raw[..1]);
    var rs, ws := ParseEach(raw, parseKey), ParseEach(raw, parseKey, AsWritten);
    assert Assemble(raw, rs, 1) == Success([rs[0].value]);
    assert Assemble(raw, ws, 1) == Success([ws[0].value]);
    CheckAgainstPreviousAsWritten(ws[0].value, ws[1].value, LastStakingCap(raw[..1]));
  }
}
