/**
 * Choosing the parameter version in force at a Bitcoin height
 * (GetVersionedGlobalParamsByHeight).
 */
module HeightLookup {
  import opened Wrappers
  import opened GoInts
  import opened VersionParser
  import opened ParamsParser

  /** The last version in vs whose activation height is at most h, or None when every version activates later. */
  function VersionAt(vs: seq<ParsedVersion>, h: Uint64): Option<ParsedVersion>
    decreases |vs|
  {
    if |vs| == 0 then None
    else if vs[|vs| - 1].activationHeight <= h then Some(vs[|vs| - 1])
    else VersionAt(vs[..|vs| - 1], h)
  }

  /** GetVersionedGlobalParamsByHeight: the backward scan that returns the first version already active at btcHeight. */
  method GetVersionedGlobalParamsByHeight(g: ParsedGlobalParams, btcHeight: Uint64) returns (r: Option<ParsedVersion>)
    ensures r == VersionAt(g.versions, btcHeight)
  {
    var i: int := |g.versions| - 1;
    assert g.versions[..i + 1] == g.versions;
    while i >= 0
      invariant -1 <= i < |g.versions|
      invariant VersionAt(g.versions, btcHeight) == VersionAt(g.versions[..i + 1], btcHeight)
    {
      var paramsVersion := g.versions[i];
      if paramsVersion.activationHeight <= btcHeight {
        return Some(paramsVersion);
      }
      assert g.versions[..i + 1][..i] == g.versions[..i];
      i := i - 1;
    }
    return None;
  }

  /** No version is found exactly when every version activates after h. */
  lemma {:induction false} VersionAtNone(vs: seq<ParsedVersion>, h: Uint64)
    ensures VersionAt(vs, h).None? <==> forall i :: 0 <= i < |vs| ==> vs[i].activationHeight > h
    decreases |vs|
  {
    if |vs| > 0 {
      var init := vs[..|vs| - 1];
      VersionAtNone(init, h);
      assert forall i :: 0 <= i < |init| ==> init[i] == vs[i];
    }
  }

  /** A version found is active at h and is the last such: every version after it activates later. */
  lemma {:induction false} VersionAtWitness(vs: seq<ParsedVersion>, h: Uint64) returns (k: nat)
    requires VersionAt(vs, h).Some?
    ensures k < |vs| && vs[k] == VersionAt(vs, h).value && vs[k].activationHeight <= h
    ensures forall j :: k < j < |vs| ==> vs[j].activationHeight > h
    decreases |vs|
  {
    if vs[|vs| - 1].activationHeight <= h {
      k := |vs| - 1;
    } else {
      var init := vs[..|vs| - 1];
      k := VersionAtWitness(init, h);
      assert init[k] == vs[k];
    }
  }

  /** Conversely, the last version active at h is the one found. */
  lemma {:induction false} VersionAtIsLastActive(vs: seq<ParsedVersion>, h: Uint64, k: nat)
    requires k < |vs| && vs[k].activationHeight <= h
    requires forall j :: k < j < |vs| ==> vs[j].activationHeight > h
    ensures VersionAt(vs, h) == Some(vs[k])
    decreases |vs|
  {
    if k < |vs| - 1 {
      var init := vs[..|vs| - 1];
      VersionAtIsLastActive(init, h, k);
    }
  }

  /** In a chained list the activation heights increase strictly between any two positions. */
  lemma {:induction false} ChainedIncreasing(vs: seq<ParsedVersion>, j: nat, i: nat)
    requires Chained(vs) && j < i < |vs|
    ensures vs[j].activationHeight < vs[i].activationHeight
    decreases i - j
  {
    if j + 1 < i {
      ChainedIncreasing(vs, j + 1, i);
    }
  }

  /** With strictly increasing activation heights, a height from version i's activation up to just before the next one selects version i. */
  lemma LookupInRange(vs: seq<ParsedVersion>, i: nat, h: Uint64)
    requires Chained(vs) && i < |vs|
    requires vs[i].activationHeight <= h
    requires i + 1 < |vs| ==> h < vs[i + 1].activationHeight
    ensures VersionAt(vs, h) == Some(vs[i])
  {
    forall j | i < j < |vs|
      ensures vs[j].activationHeight > h
    {
      if i + 1 < j {
        ChainedIncreasing(vs, i + 1, j);
      }
    }
    VersionAtIsLastActive(vs, h, i);
  }

  /** Below the first activation height no version applies. */
  lemma LookupBelowFirst(vs: seq<ParsedVersion>, h: Uint64)
    requires Chained(vs) && |vs| > 0 && h < vs[0].activationHeight
    ensures VersionAt(vs, h).None?
  {
    forall i | 0 < i < |vs|
      ensures vs[i].activationHeight > h
    {
      ChainedIncreasing(vs, 0, i);
    }
    VersionAtNone(vs, h);
  }

  /**
   * With strictly increasing activation heights, looking up a version's own
   * activation height returns that version, and looking up the height just
   * before it returns the previous version.
   */
  lemma LookupAtActivations(vs: seq<ParsedVersion>)
    requires Chained(vs)
    ensures forall i :: 0 < i < |vs| ==> vs[i].activationHeight > 0
    ensures forall i :: 0 <= i < |vs| ==> VersionAt(vs, vs[i].activationHeight) == Some(vs[i])
    ensures forall i :: 0 < i < |vs| ==> VersionAt(vs, vs[i].activationHeight - 1) == Some(vs[i - 1])
  {
    forall i | 0 < i < |vs|
      ensures vs[i].activationHeight > 0
    {
      assert vs[i].activationHeight > vs[i - 1].activationHeight;
    }
    forall i | 0 <= i < |vs|
      ensures VersionAt(vs, vs[i].activationHeight) == Some(vs[i])
    {
      LookupInRange(vs, i, vs[i].activationHeight);
    }
    forall i | 0 < i < |vs|
      ensures vs[i].activationHeight > 0 && VersionAt(vs, vs[i].activationHeight - 1) == Some(vs[i - 1])
    {
      assert vs[i].activationHeight > vs[i - 1].activationHeight;
      LookupInRange(vs, i - 1, vs[i].activationHeight - 1);
    }
  }

  /** The same for the versions of a successfully parsed file. */
  lemma ParsedLookup(p: GlobalParams, parseKey: KeyParser)
    requires ParseGlobal(p, parseKey).Success?
    ensures var vs := ParseGlobal(p, parseKey).value.versions;
      && Chained(vs)
      && (forall i :: 0 < i < |vs| ==> vs[i].activationHeight > 0)
      && (forall i :: 0 <= i < |vs| ==> VersionAt(vs, vs[i].activationHeight) == Some(vs[i]))
      && (forall i :: 0 < i < |vs| ==> VersionAt(vs, vs[i].activationHeight - 1) == Some(vs[i - 1]))
  {
    ParseGlobalChained(p, parseKey);
    LookupAtActivations(ParseGlobal(p, parseKey).value.versions);
  }
}
