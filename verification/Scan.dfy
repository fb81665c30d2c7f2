/** The linear view of a file: which slots are live, and what happens to dead ones. */
module Scan {
  import opened Types
  import opened ByteFile
  import opened Rings
  import AL = AssocList

  /** The live slots among the first n, in file order. */
  function LiveSlots(recs: seq<Record>, n: nat): (live: seq<nat>)
    requires n <= |recs|
    ensures forall i :: 0 <= i < |live| ==> live[i] < n
  {
    if n == 0 then []
    else if recs[n - 1].IsEmpty() then LiveSlots(recs, n - 1)
    else LiveSlots(recs, n - 1) + [n - 1]
  }

  lemma {:induction false} LiveSlotsExact(recs: seq<Record>, n: nat)
    requires n <= |recs|
    ensures NoDup(LiveSlots(recs, n))
    ensures forall s :: s in LiveSlots(recs, n) <==> 0 <= s < n && !recs[s].IsEmpty()
  {
    if n > 0 { LiveSlotsExact(recs, n - 1); }
  }

  /** The live slots come in the order of the file. */
  lemma {:induction false} LiveSlotsAscend(recs: seq<Record>, n: nat)
    requires n <= |recs|
    ensures forall i, j :: 0 <= i < j < |LiveSlots(recs, n)| ==> LiveSlots(recs, n)[i] < LiveSlots(recs, n)[j]
  {
    if n > 0 { LiveSlotsAscend(recs, n - 1); }
  }

  lemma LiveInRing(f: nat, recs: seq<Record>, rings: seq<seq<nat>>, s: nat) returns (b: nat, i: nat)
    requires FileOK(f, recs, rings) && s < |recs| && !recs[s].IsEmpty()
    ensures b == BucketOf(recs[s].hash1) && BucketOK(f, recs, rings[b], b)
    ensures i < |rings[b]| && rings[b][i] == s
  {
    b := BucketOf(recs[s].hash1);
    assert BucketOK(f, recs, rings[b], b);
    i :| 0 <= i < |rings[b]| && rings[b][i] == s;
  }

  lemma RingIsLive(f: nat, recs: seq<Record>, ring: seq<nat>, b: nat)
    requires BucketOK(f, recs, ring, b) && |recs| <= MAX_RECORDS
    ensures forall i :: 0 <= i < |ring| ==> !recs[ring[i]].IsEmpty()
  {
    forall i | 0 <= i < |ring| ensures !recs[ring[i]].IsEmpty() {
      assert Hooked(recs, ring, i);
    }
  }

  /** The scan meets exactly the slots that are on some ring. */
  lemma LiveIsUnionOfRings(f: nat, recs: seq<Record>, rings: seq<seq<nat>>, s: nat)
    requires FileOK(f, recs, rings)
    ensures s in LiveSlots(recs, |recs|) <==> exists b :: 0 <= b < FILE_TABLE_LEN && s in rings[b]
  {
    LiveSlotsExact(recs, |recs|);
    if s in LiveSlots(recs, |recs|) {
      var b, i := LiveInRing(f, recs, rings, s);
      assert s in rings[b];
    }
    if b :| 0 <= b < FILE_TABLE_LEN && s in rings[b] {
      assert BucketOK(f, recs, rings[b], b);
      RingIsLive(f, recs, rings[b], b);
    }
  }

  /** Two live slots never hold the same triple. */
  lemma LiveIdsUnique(f: nat, recs: seq<Record>, rings: seq<seq<nat>>, s: nat, s': nat)
    requires FileOK(f, recs, rings) && s < |recs| && s' < |recs|
    requires !recs[s].IsEmpty() && !recs[s'].IsEmpty() && recs[s].Id() == recs[s'].Id()
    ensures s == s'
  {
    var b, i := LiveInRing(f, recs, rings, s);
    var b', i' := LiveInRing(f, recs, rings, s');
    assert Entries(recs, rings[b])[i].id == Entries(recs, rings[b])[i'].id;
  }

  /** The scan, as pairs, is the whole file: each stored pair once, nothing else. */
  lemma ScanIsContents(f: nat, recs: seq<Record>, rings: seq<seq<nat>>)
    requires FileOK(f, recs, rings)
    ensures var live := LiveSlots(recs, |recs|);
            && InFile(recs, live)
            && AL.UniqueIds(Entries(recs, live))
            && (forall b :: 0 <= b < FILE_TABLE_LEN ==> BucketOK(f, recs, rings[b], b))
            && forall t: Triple ::
                 AL.Get(Entries(recs, live), t) ==
                 if FileOf(t.hash1) == f then AL.Get(Entries(recs, rings[BucketOf(t.hash1)]), t) else None
  {
    var live := LiveSlots(recs, |recs|);
    LiveSlotsExact(recs, |recs|);
    forall i, j | 0 <= i < j < |live| ensures Entries(recs, live)[i].id != Entries(recs, live)[j].id {
      assert live[i] in live && live[j] in live;
      if recs[live[i]].Id() == recs[live[j]].Id() { LiveIdsUnique(f, recs, rings, live[i], live[j]); }
    }
    forall t: Triple
      ensures AL.Get(Entries(recs, live), t) ==
        if FileOf(t.hash1) == f then AL.Get(Entries(recs, rings[BucketOf(t.hash1)]), t) else None
    {
      ScanFinds(f, recs, rings, t);
    }
  }

  lemma FoundInScan(f: nat, recs: seq<Record>, rings: seq<seq<nat>>, t: Triple)
    requires FileOK(f, recs, rings) && AL.UniqueIds(Entries(recs, LiveSlots(recs, |recs|)))
    requires AL.Get(Entries(recs, LiveSlots(recs, |recs|)), t).Some?
    ensures FileOf(t.hash1) == f && BucketOK(f, recs, rings[BucketOf(t.hash1)], BucketOf(t.hash1))
    ensures AL.Get(Entries(recs, rings[BucketOf(t.hash1)]), t) == AL.Get(Entries(recs, LiveSlots(recs, |recs|)), t)
  {
    var live := LiveSlots(recs, |recs|);
    LiveSlotsExact(recs, |recs|);
    var k := AL.GetSome(Entries(recs, live), t);
    assert live[k] in live;
    var b, i := LiveInRing(f, recs, rings, live[k]);
    AL.GetAt(Entries(recs, live), k);
    AL.GetAt(Entries(recs, rings[b]), i);
    assert FileOf(Entries(recs, rings[b])[i].id.hash1) == f;
  }

  lemma FoundInRing(f: nat, recs: seq<Record>, ring: seq<nat>, b: nat, t: Triple)
    requires BucketOK(f, recs, ring, b) && |recs| <= MAX_RECORDS
    requires AL.Get(Entries(recs, ring), t).Some?
    ensures AL.Get(Entries(recs, LiveSlots(recs, |recs|)), t).Some?
  {
    var live := LiveSlots(recs, |recs|);
    LiveSlotsExact(recs, |recs|);
    RingIsLive(f, recs, ring, b);
    var i := AL.GetSome(Entries(recs, ring), t);
    assert ring[i] in live;
    var k :| 0 <= k < |live| && live[k] == ring[i];
    assert Entries(recs, live)[k].id == t;
    AL.GetNone(Entries(recs, live), t);
  }

  lemma ScanFinds(f: nat, recs: seq<Record>, rings: seq<seq<nat>>, t: Triple)
    requires FileOK(f, recs, rings) && AL.UniqueIds(Entries(recs, LiveSlots(recs, |recs|)))
    requires forall b :: 0 <= b < FILE_TABLE_LEN ==> BucketOK(f, recs, rings[b], b)
    ensures AL.Get(Entries(recs, LiveSlots(recs, |recs|)), t) ==
      if FileOf(t.hash1) == f then AL.Get(Entries(recs, rings[BucketOf(t.hash1)]), t) else None
  {
    if AL.Get(Entries(recs, LiveSlots(recs, |recs|)), t).Some? {
      FoundInScan(f, recs, rings, t);
    } else if FileOf(t.hash1) == f && AL.Get(Entries(recs, rings[BucketOf(t.hash1)]), t).Some? {
      FoundInRing(f, recs, rings[BucketOf(t.hash1)], BucketOf(t.hash1), t);
    }
  }

  // ---------- slot conservation ----------

  /** n slots were appended; every overflow slot that was dead is untouched. */
  ghost predicate SlotsKept(recs: seq<Record>, recs': seq<Record>, n: nat) {
    && |recs'| == |recs| + n
    && forall s :: FILE_TABLE_LEN <= s < |recs| && recs[s].IsEmpty() ==> recs'[s] == recs[s]
  }

  lemma ChangeKeepsDead(f: nat, recs: seq<Record>, ring: seq<nat>, b: nat, recs': seq<Record>, ring': seq<nat>)
    requires BucketOK(f, recs, ring, b) && |recs| <= MAX_RECORDS && b < FILE_TABLE_LEN
    requires Change(f, recs, ring, b, recs', ring')
    ensures SlotsKept(recs, recs', |recs'| - |recs|)
  {
    RingIsLive(f, recs, ring, b);
  }

  lemma SlotsKeptTwice(recs: seq<Record>, recs': seq<Record>, recs'': seq<Record>, m: nat, n: nat)
    requires SlotsKept(recs, recs', m) && SlotsKept(recs', recs'', n)
    ensures SlotsKept(recs, recs'', m + n)
  {
    assert forall s :: FILE_TABLE_LEN <= s < |recs| && recs[s].IsEmpty() ==> recs'[s] == recs[s];
  }
}
