/** Benchmark history records, the window a run may be judged against, and image
    identity (scripts/bench-history.py). */
module Records {
  import opened Wrappers
  import opened Order
  import opened Drift

  const LEGACY_PROFILE := "debug"
  const HOST_LOAD_LOADED := "loaded"
  const UNKNOWN_COMMIT := "unknown"

  /** One line of the history; an absent JSON field is `None`. */
  datatype Record = Record(
    host: Option<string>, profile: Option<string>, hostLoad: Option<string>,
    experiment: Option<string>, accel: Option<string>,
    commit: Option<string>, kernelSha: Option<string>, dirty: bool,
    entries: Entries)

  /** What a run is compared under: host, build profile and accelerator. */
  datatype Setting = Setting(host: string, profile: string, accel: Option<string>)

  /** Python truthiness of an optional string: absent and empty are both false. */
  predicate Truthy(s: Option<string>) { s.Some? && s.value != "" }

  predicate IsComparable(r: Record, at: Setting) {
    && r.host == Some(at.host)
    && (match r.profile case Some(p) => p case None => LEGACY_PROFILE) == at.profile
    && r.hostLoad != Some(HOST_LOAD_LOADED)
    && (if Truthy(r.accel) then r.accel else None) == at.accel
    && !Truthy(r.experiment)
  }

  function ComparableAt(at: Setting): Record -> bool { (r: Record) => IsComparable(r, at) }

  function ComparableRecords(records: seq<Record>, at: Setting): (window: seq<Record>)
    ensures forall r :: r in window <==> r in records && IsComparable(r, at)
  {
    FilterMembers(ComparableAt(at), records);
    Filter(ComparableAt(at), records)
  }

  lemma ComparableAppend(a: seq<Record>, b: seq<Record>, at: Setting)
    ensures ComparableRecords(a + b, at) == ComparableRecords(a, at) + ComparableRecords(b, at)
  {
    FilterConcat(ComparableAt(at), a, b);
  }

  /** What keeps a run out of a window, by its fields: another host, a loaded host, an
      experiment, another build profile (an old record without one is a debug build) or
      another accelerator (none and the empty one are alike). */
  ghost predicate Foreign(r: Record, at: Setting) {
    || r.host.None? || r.host.value != at.host
    || r.hostLoad == Some("loaded")
    || (r.experiment.Some? && r.experiment.value != "")
    || (r.profile.None? && at.profile != "debug")
    || (r.profile.Some? && r.profile.value != at.profile)
    || (at.accel.None? && r.accel.Some? && r.accel.value != "")
    || (at.accel.Some? && (r.accel != at.accel || at.accel.value == ""))
  }

  lemma JustOne(r: Record, at: Setting)
    ensures ComparableRecords([r], at) == if IsComparable(r, at) then [r] else []
  {
    hide IsComparable;
    assert [r][1..] == [] && Filter(ComparableAt(at), []) == [];
    assert Filter(ComparableAt(at), [r])
        == (if IsComparable(r, at) then [r] else []) + Filter(ComparableAt(at), [r][1..]);
  }

  /** One more record, anywhere in the file, enters the window exactly when it is not foreign,
      in its place; a foreign one leaves the window as it was. */
  lemma OneMoreRecord(a: seq<Record>, r: Record, b: seq<Record>, at: Setting)
    ensures ComparableRecords(a + [r] + b, at)
            == ComparableRecords(a, at) + (if Foreign(r, at) then [] else [r]) + ComparableRecords(b, at)
    ensures Foreign(r, at) ==> ComparableRecords(a + [r] + b, at) == ComparableRecords(a + b, at)
  {
    assert IsComparable(r, at) <==> !Foreign(r, at);
    JustOne(r, at);
    hide *;
    ComparableAppend(a + [r], b, at);
    ComparableAppend(a, [r], at);
    ComparableAppend(a, b, at);
    assert ComparableRecords(a, at) + [] == ComparableRecords(a, at);
  }

  lemma AllComparable(records: seq<Record>, at: Setting)
    requires forall r :: r in records ==> IsComparable(r, at)
    ensures ComparableRecords(records, at) == records
  {
    FilterAll(ComparableAt(at), records);
  }

  /** A commit names the code only when it was readable and the tree was clean. */
  function CleanCommit(r: Record): Option<string> {
    if !Truthy(r.commit) || r.commit == Some(UNKNOWN_COMMIT) || r.dirty then None else r.commit
  }

  /** Did two records measure the same kernel code?  Two hashes decide alone. */
  predicate SameImage(a: Record, b: Record) {
    if Truthy(a.kernelSha) && Truthy(b.kernelSha) then a.kernelSha == b.kernelSha
    else CleanCommit(a).Some? && CleanCommit(a) == CleanCommit(b)
  }

  /** The relation is symmetric, and reflexive on exactly the records that name their code. */
  lemma SameImageSymmetric(a: Record, b: Record)
    ensures SameImage(a, b) <==> SameImage(b, a)
    ensures SameImage(a, a) <==> (Truthy(a.kernelSha) || CleanCommit(a).Some?)
  {}

  /** Two records are one image by their fields: two hashes that are there decide alone; failing
      that both trees are clean and name one commit, which is neither empty nor unknown. */
  lemma SameImageMeans(a: Record, b: Record)
    ensures a.kernelSha.Some? && a.kernelSha.value != "" && b.kernelSha.Some? && b.kernelSha.value != "" ==>
      (SameImage(a, b) <==> a.kernelSha.value == b.kernelSha.value)
    ensures a.kernelSha in {None, Some("")} || b.kernelSha in {None, Some("")} ==>
      (SameImage(a, b) <==>
         !a.dirty && !b.dirty && a.commit == b.commit && a.commit !in {None, Some(""), Some("unknown")})
  {}

  /** Every two of the runs, and each with itself, are one image. */
  ghost predicate PairwiseSame(runs: seq<Record>) {
    forall i, j :: 0 <= i < |runs| && 0 <= j < |runs| ==> SameImage(runs[i], runs[j])
  }

  predicate OneHash(runs: seq<Record>) {
    forall i, j :: 0 <= i < |runs| && 0 <= j < |runs| && Truthy(runs[i].kernelSha) && Truthy(runs[j].kernelSha) ==>
      runs[i].kernelSha == runs[j].kernelSha
  }

  predicate OneCommit(runs: seq<Record>) {
    forall k :: 0 <= k < |runs| ==> CleanCommit(runs[k]).Some? && CleanCommit(runs[k]) == CleanCommit(runs[0])
  }

  /** Read off the keys alone: the hashes that are there agree, and unless every run has one
      all of them name one clean commit. */
  predicate KeysAgree(runs: seq<Record>) {
    OneHash(runs) && ((forall k :: 0 <= k < |runs| ==> Truthy(runs[k].kernelSha)) || OneCommit(runs))
  }

  /** Exactly when a list of runs is one image pair by pair. */
  lemma PairwiseIffKeysAgree(runs: seq<Record>)
    ensures PairwiseSame(runs) <==> KeysAgree(runs)
  {
    if PairwiseSame(runs) && exists u :: 0 <= u < |runs| && !Truthy(runs[u].kernelSha) {
      var u :| 0 <= u < |runs| && !Truthy(runs[u].kernelSha);
      forall k | 0 <= k < |runs| ensures CleanCommit(runs[k]).Some? && CleanCommit(runs[k]) == CleanCommit(runs[u]) {
        assert SameImage(runs[u], runs[k]);
      }
    }
  }

  /** Comparing every run with the first one is enough exactly when the keys agree: after a
      hashed first run, when all are hashed or all name one clean commit; after an unhashed
      one, when the hashes among the others are equal. */
  lemma FirstRunDecidesIff(runs: seq<Record>)
    requires |runs| >= 2 && forall k :: 0 < k < |runs| ==> SameImage(runs[0], runs[k])
    ensures PairwiseSame(runs) <==> KeysAgree(runs)
    ensures Truthy(runs[0].kernelSha) ==>
      (PairwiseSame(runs) <==> (forall k :: 0 <= k < |runs| ==> Truthy(runs[k].kernelSha)) || OneCommit(runs))
    ensures !Truthy(runs[0].kernelSha) ==> (PairwiseSame(runs) <==> OneHash(runs))
  {
    PairwiseIffKeysAgree(runs);
    assert SameImage(runs[0], runs[1]);
    if Truthy(runs[0].kernelSha) {
      forall k | 0 < k < |runs| && Truthy(runs[k].kernelSha) ensures runs[k].kernelSha == runs[0].kernelSha {
        assert SameImage(runs[0], runs[k]);
      }
    } else {
      forall k | 0 <= k < |runs| ensures CleanCommit(runs[k]).Some? && CleanCommit(runs[k]) == CleanCommit(runs[0]) {
        assert k > 0 ==> SameImage(runs[0], runs[k]);
      }
    }
  }

  /** In particular when all runs, or none, carry a hash. */
  lemma UniformKeysArePairwise(runs: seq<Record>)
    requires |runs| >= 2 && forall k :: 0 < k < |runs| ==> SameImage(runs[0], runs[k])
    requires (forall k :: 0 <= k < |runs| ==> Truthy(runs[k].kernelSha))
          || (forall k :: 0 <= k < |runs| ==> !Truthy(runs[k].kernelSha))
    ensures PairwiseSame(runs)
  {
    FirstRunDecidesIff(runs);
  }

  /** With mixed keys it need not be: one clean unhashed run bridges two different hashes. */
  lemma MixedKeysAreNotTransitive() returns (unhashed: Record, one: Record, other: Record)
    ensures SameImage(unhashed, one) && SameImage(unhashed, other)
    ensures !SameImage(one, other)
  {
    unhashed := Record(None, None, None, None, None, Some("c1"), None, false, map[]);
    one := unhashed.(kernelSha := Some("aa"));
    other := unhashed.(kernelSha := Some("bb"));
  }
}
