/** Did another run of the same kernel image produce the movement too?
    (scripts/bench-history.py, `replication_verdict`). */
module Replication {
  import opened Wrappers
  import opened Records
  import opened Bands
  import opened Modes

  const REPLICATION_MIN_RUNS := 2

  datatype Replicability = Replicated | Unreplicated | Contradicted

  /** Every reading of `name` recorded for one image. */
  function ValuesForBinary(window: seq<Record>, name: string, thisRun: Option<Record>): seq<real> {
    if window == [] || thisRun.None? then []
    else
      (if SameImage(window[0], thisRun.value) && name in window[0].entries
       then [window[0].entries[name]] else [])
      + ValuesForBinary(window[1..], name, thisRun)
  }

  /** The verdict on a reading of this run, given the stored readings of the same image. */
  function Verdict(stored: seq<real>, observed: real, band: Option<Band>): Replicability {
    if band.None? || |stored + [observed]| < REPLICATION_MIN_RUNS then Unreplicated
    else if Lowest(stored + [observed]) > band.value.hi then Replicated
    else Contradicted
  }

  function ReplicationVerdict(records: seq<Record>, at: Setting, name: string, thisRun: Option<Record>,
                              observed: real, band: Option<Band>): Replicability
  {
    Verdict(ValuesForBinary(ComparableRecords(records, at), name, thisRun), observed, band)
  }

  /** A movement that left its band is contradicted exactly when a stored reading of the
      image did not, and replicated exactly when at least one is stored and all did. */
  lemma VerdictMeans(stored: seq<real>, observed: real, band: Band)
    requires observed > band.hi
    ensures var v := Verdict(stored, observed, Some(band));
      && (v == Contradicted <==> exists s :: s in stored && s <= band.hi)
      && (v == Replicated <==> stored != [] && forall s :: s in stored ==> s > band.hi)
      && (v == Unreplicated <==> stored == [])
  {
    var values := stored + [observed];
    var least := Lowest(values);
    assert observed in values;
    forall s | s in stored ensures s in values {}
    if stored != [] { assert stored[0] in stored; }
  }

  /** The reading that contradicts is a stored one, never this run's own. */
  lemma ContradictionIsStored(stored: seq<real>, observed: real, band: Band)
    requires observed > band.hi && Verdict(stored, observed, Some(band)) == Contradicted
    ensures Lowest(stored + [observed]) in stored && Lowest(stored + [observed]) <= band.hi < observed
  {
    var values := stored + [observed];
    assert Lowest(values) in values;
  }

  lemma {:induction false} ValuesAppend(a: seq<Record>, b: seq<Record>, name: string, thisRun: Option<Record>)
    ensures ValuesForBinary(a + b, name, thisRun)
            == ValuesForBinary(a, name, thisRun) + ValuesForBinary(b, name, thisRun)
  {
    if a == [] {
      assert a + b == b;
    } else {
      assert (a + b)[1..] == a[1..] + b;
      ValuesAppend(a[1..], b, name, thisRun);
    }
  }

  /** One more record, anywhere in the window, adds its reading when it is the same image and read
      the benchmark, and nothing otherwise; without an image nothing is ever stored. */
  lemma OneMoreStored(a: seq<Record>, r: Record, b: seq<Record>, name: string, thisRun: Record)
    ensures ValuesForBinary(a + [r] + b, name, Some(thisRun))
            == ValuesForBinary(a, name, Some(thisRun))
               + (if SameImage(r, thisRun) && name in r.entries then [r.entries[name]] else [])
               + ValuesForBinary(b, name, Some(thisRun))
    ensures ValuesForBinary(a, name, None) == []
  {
    JustOneStored(r, name, thisRun);
    assert ValuesForBinary(a, name, None) == [];
    hide *;
    ValuesAppend(a + [r], b, name, Some(thisRun));
    ValuesAppend(a, [r], name, Some(thisRun));
  }

  lemma JustOneStored(r: Record, name: string, thisRun: Record)
    ensures ValuesForBinary([r], name, Some(thisRun))
            == if SameImage(r, thisRun) && name in r.entries then [r.entries[name]] else []
  {
    hide SameImage;
    assert [r][1..] == [];
  }

  /** With the fence fixed, no later record can undo a contradiction, and replication can
      only be lost to one. */
  lemma ContradictionIsAbsorbing(records: seq<Record>, more: seq<Record>, at: Setting, name: string,
                                 thisRun: Option<Record>, observed: real, band: Band)
    requires observed > band.hi
    ensures ReplicationVerdict(records, at, name, thisRun, observed, Some(band)) == Contradicted ==>
      ReplicationVerdict(records + more, at, name, thisRun, observed, Some(band)) == Contradicted
    ensures ReplicationVerdict(records, at, name, thisRun, observed, Some(band)) == Replicated ==>
      ReplicationVerdict(records + more, at, name, thisRun, observed, Some(band)) != Unreplicated
  {
    ComparableAppend(records, more, at);
    var a, b := ComparableRecords(records, at), ComparableRecords(more, at);
    ValuesAppend(a, b, name, thisRun);
    var stored, later := ValuesForBinary(a, name, thisRun), ValuesForBinary(b, name, thisRun);
    VerdictMeans(stored, observed, band);
    VerdictMeans(stored + later, observed, band);
    assert forall s :: s in stored ==> s in stored + later;
  }

  /** No run replicates itself: without another record of its image a movement stays unreplicated. */
  lemma OneRunNeverReplicates(records: seq<Record>, at: Setting, name: string, thisRun: Record,
                              observed: real, band: Option<Band>)
    requires forall r :: r in ComparableRecords(records, at) ==> !SameImage(r, thisRun)
    ensures ReplicationVerdict(records, at, name, Some(thisRun), observed, band) == Unreplicated
  {
    NoTwinNoValues(ComparableRecords(records, at), name, thisRun);
  }

  lemma {:induction false} NoTwinNoValues(window: seq<Record>, name: string, thisRun: Record)
    requires forall r :: r in window ==> !SameImage(r, thisRun)
    ensures ValuesForBinary(window, name, Some(thisRun)) == []
  {
    if window == [] {
    } else {
      assert window[0] in window;
      NoTwinNoValues(window[1..], name, thisRun);
    }
  }
}
