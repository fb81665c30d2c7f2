/** The circular lists threaded through the record array of one database file. */
module Rings {
  import opened Types
  import opened ByteFile
  import opened AssocList

  /** Number of database files. */
  const HASH_TABLE_LEN: int := 1021

  /** Number of bucket heads at the front of every file. */
  const FILE_TABLE_LEN: int := 8191

  function EmptyString(): Block { seq(KV_STR_LEN, _ => 0) }

  function FileOf(h: U64): nat { h % HASH_TABLE_LEN }

  function BucketOf(h: U64): (b: nat)
    ensures b < FILE_TABLE_LEN
  {
    h % FILE_TABLE_LEN
  }

  // ---------- well-formedness ----------

  function Next(ring: seq<nat>, i: nat): nat
    requires i < |ring|
  {
    if i + 1 < |ring| then ring[i + 1] else ring[0]
  }

  function Prev(ring: seq<nat>, i: nat): nat
    requires i < |ring|
  {
    if i > 0 then ring[i - 1] else ring[|ring| - 1]
  }

  /** The i-th node of the ring and its two links. */
  ghost predicate Hooked(recs: seq<Record>, ring: seq<nat>, i: nat)
    requires i < |ring|
  {
    && ring[i] < |recs|
    && recs[ring[i]].right == Next(ring, i)
    && recs[ring[i]].left == Prev(ring, i)
  }

  ghost predicate Linked(recs: seq<Record>, ring: seq<nat>) {
    forall i :: 0 <= i < |ring| ==> Hooked(recs, ring, i)
  }

  ghost predicate InFile(recs: seq<Record>, ring: seq<nat>) {
    forall i :: 0 <= i < |ring| ==> ring[i] < |recs|
  }

  /** The ring starts in the head slot; everything behind it lives in the overflow area. */
  ghost predicate Placed(ring: seq<nat>, b: nat) {
    && (ring != [] ==> ring[0] == b)
    && (forall i :: 1 <= i < |ring| ==> FILE_TABLE_LEN <= ring[i])
    && NoDup(ring)
  }

  /** Every entry hashes to this file and bucket, and no triple occurs twice. */
  ghost predicate Keyed(es: seq<Pair>, f: nat, b: nat) {
    && (forall i :: 0 <= i < |es| ==> FileOf(es[i].id.hash1) == f && BucketOf(es[i].id.hash1) == b)
    && UniqueIds(es)
  }

  ghost predicate BucketOK(f: nat, recs: seq<Record>, ring: seq<nat>, b: nat) {
    && b < |recs|
    && (ring == [] ==> recs[b].IsEmpty())
    && InFile(recs, ring)
    && Placed(ring, b)
    && Linked(recs, ring)
    && Keyed(Entries(recs, ring), f, b)
  }

  /** A slot is dead or on the ring of the bucket its own hash names. */
  ghost predicate Covered(recs: seq<Record>, rings: seq<seq<nat>>)
    requires |rings| == FILE_TABLE_LEN
  {
    forall s :: 0 <= s < |recs| ==> recs[s].IsEmpty() || s in rings[BucketOf(recs[s].hash1)]
  }

  ghost predicate FileOK(f: nat, recs: seq<Record>, rings: seq<seq<nat>>) {
    && |rings| == FILE_TABLE_LEN <= |recs| <= MAX_RECORDS
    && (forall b :: 0 <= b < FILE_TABLE_LEN ==> BucketOK(f, recs, rings[b], b))
    && Covered(recs, rings)
  }

  /** The ring read from its head. */
  function Entries(recs: seq<Record>, ring: seq<nat>): (es: seq<Pair>)
    requires InFile(recs, ring)
    ensures |es| == |ring|
    ensures forall i :: 0 <= i < |ring| ==> es[i] == Pair(recs[ring[i]].Id(), recs[ring[i]].value)
  {
    seq(|ring|, i requires 0 <= i < |ring| => Pair(recs[ring[i]].Id(), recs[ring[i]].value))
  }

  // ---------- the six changes a write or a delete makes to the record array ----------

  function FillHead(recs: seq<Record>, b: nat, t: Triple, v: Block): seq<Record>
    requires b < |recs| <= MAX_RECORDS
  {
    recs[b := Record(b, b, t.hash1, t.hash2, t.key, v)]
  }

  function SetValue(recs: seq<Record>, s: nat, v: Block): seq<Record>
    requires s < |recs|
  {
    recs[s := recs[s].(value := v)]
  }

  /** New last entry at the end of the file, then the links of its two neighbours. */
  function Append(recs: seq<Record>, b: nat, last: nat, t: Triple, v: Block): seq<Record>
    requires b < |recs| < MAX_RECORDS && last < |recs|
  {
    var n := |recs|;
    var r1 := recs + [Record(last, b, t.hash1, t.hash2, t.key, v)];
    if last == b then
      r1[b := r1[b].(left := n, right := n)]
    else
      var r2 := r1[last := r1[last].(right := n)];
      r2[b := r2[b].(left := n)]
  }

  function Killed(r: Record): Record {
    r.(left := MAX_UINT64, right := MAX_UINT64, hash1 := MAX_UINT64, hash2 := MAX_UINT64)
  }

  function Blank(): Record {
    Record(MAX_UINT64, MAX_UINT64, MAX_UINT64, MAX_UINT64, EmptyString(), EmptyString())
  }

  function Unlink(recs: seq<Record>, cur: nat, l: nat, r: nat): seq<Record>
    requires cur < |recs| <= MAX_RECORDS && l < |recs| && r < |recs|
  {
    var r1 := recs[cur := Blank()];
    var r2 := r1[l := r1[l].(right := r)];
    r2[r := r2[r].(left := l)]
  }

  function KillHead(recs: seq<Record>, b: nat): seq<Record>
    requires b < |recs|
  {
    recs[b := Killed(recs[b])]
  }

  /** Deleting the head of a longer ring: kill the second slot, then copy its old content into the head slot. */
  function PullUp(recs: seq<Record>, b: nat, second: nat, third: nat): seq<Record>
    requires b < |recs| <= MAX_RECORDS && second < |recs| && third < |recs|
  {
    var r1 := recs[second := Killed(recs[second])];
    var r2 := r1[third := r1[third].(left := b)];
    r2[b := recs[second].(left := r2[b].left, right := third)]
  }

  // ---------- framing ----------

  /** Only slots of bucket b, and slots appended for it, differ. */
  ghost predicate OnlyBucket(recs: seq<Record>, ring: seq<nat>, b: nat, recs': seq<Record>) {
    && |recs| <= |recs'|
    && forall s :: 0 <= s < |recs| && s != b && s !in ring ==> recs'[s] == recs[s]
  }

  /** What the rest of the file needs to know about the slots of b afterwards. */
  ghost predicate Accounted(recs: seq<Record>, ring: seq<nat>, b: nat, recs': seq<Record>, ring': seq<nat>) {
    forall s :: 0 <= s < |recs'| && (s == b || s in ring || |recs| <= s) ==> recs'[s].IsEmpty() || s in ring'
  }

  lemma SameBucket(f: nat, recs: seq<Record>, ring: seq<nat>, b: nat, recs': seq<Record>)
    requires BucketOK(f, recs, ring, b)
    requires |recs| <= |recs'| && recs'[b] == recs[b]
    requires forall i :: 0 <= i < |ring| ==> recs'[ring[i]] == recs[ring[i]]
    ensures BucketOK(f, recs', ring, b)
    ensures Entries(recs', ring) == Entries(recs, ring)
  {
    forall i | 0 <= i < |ring| ensures Hooked(recs', ring, i) {
      assert Hooked(recs, ring, i);
    }
  }

  /** Slots of different buckets are different: the hash in a slot names its bucket. */
  lemma Disjoint(f: nat, recs: seq<Record>, ring: seq<nat>, b: nat, ring': seq<nat>, c: nat)
    requires BucketOK(f, recs, ring, b) && BucketOK(f, recs, ring', c) && b != c
    requires b < FILE_TABLE_LEN && c < FILE_TABLE_LEN
    ensures forall i :: 0 <= i < |ring'| ==> ring'[i] !in ring && ring'[i] != b
  {
    forall i | 0 <= i < |ring'| ensures ring'[i] !in ring && ring'[i] != b {
      assert BucketOf(Entries(recs, ring')[i].id.hash1) == c;
      assert forall j :: 0 <= j < |ring| ==> BucketOf(Entries(recs, ring)[j].id.hash1) == b;
    }
  }

  /** A bucket other than b keeps its ring and its entries. */
  lemma OtherBucket(f: nat, recs: seq<Record>, rings: seq<seq<nat>>, b: nat, recs': seq<Record>, c: nat)
    requires FileOK(f, recs, rings) && b < FILE_TABLE_LEN && c < FILE_TABLE_LEN && b != c
    requires OnlyBucket(recs, rings[b], b, recs')
    ensures BucketOK(f, recs', rings[c], c)
    ensures BucketOK(f, recs, rings[c], c)
    ensures Entries(recs', rings[c]) == Entries(recs, rings[c])
  {
    var ring := rings[c];
    assert BucketOK(f, recs, rings[b], b) && BucketOK(f, recs, ring, c);
    Disjoint(f, recs, rings[b], b, ring, c);
    assert c !in rings[b];
    SameBucket(f, recs, ring, c, recs');
  }

  /** recs becomes recs' by a change confined to bucket b, whose ring becomes ring'. */
  ghost predicate Change(f: nat, recs: seq<Record>, ring: seq<nat>, b: nat, recs': seq<Record>, ring': seq<nat>) {
    && |recs'| <= MAX_RECORDS
    && OnlyBucket(recs, ring, b, recs')
    && Accounted(recs, ring, b, recs', ring')
    && BucketOK(f, recs', ring', b)
  }

  /** A well-formed change of one bucket is a well-formed change of the file. */
  lemma ReplaceRing(f: nat, recs: seq<Record>, rings: seq<seq<nat>>, b: nat, recs': seq<Record>, ring': seq<nat>)
    requires FileOK(f, recs, rings) && b < FILE_TABLE_LEN
    requires Change(f, recs, rings[b], b, recs', ring')
    ensures FileOK(f, recs', rings[b := ring'])
  {
    var rings' := rings[b := ring'];
    forall c | 0 <= c < FILE_TABLE_LEN ensures BucketOK(f, recs', rings'[c], c) {
      if c != b { OtherBucket(f, recs, rings, b, recs', c); }
    }
    forall s | 0 <= s < |recs'| && !recs'[s].IsEmpty() ensures s in rings'[BucketOf(recs'[s].hash1)] {
      if s == b || s in rings[b] || |recs| <= s {
        var i :| 0 <= i < |ring'| && ring'[i] == s;
        assert BucketOf(Entries(recs', ring')[i].id.hash1) == b;
      } else {
        assert recs'[s] == recs[s] && s in rings[BucketOf(recs[s].hash1)];
      }
    }
  }

  // ---------- each change keeps the file well-formed and is a sequence operation on the ring ----------

  lemma FillHeadOK(f: nat, recs: seq<Record>, b: nat, t: Triple, v: Block)
    requires BucketOK(f, recs, [], b) && |recs| <= MAX_RECORDS
    requires FileOf(t.hash1) == f && BucketOf(t.hash1) == b
    ensures Change(f, recs, [], b, FillHead(recs, b, t, v), [b])
    ensures Entries(FillHead(recs, b, t, v), [b]) == [Pair(t, v)]
  {
    assert Hooked(FillHead(recs, b, t, v), [b], 0);
  }

  lemma SetValueOK(f: nat, recs: seq<Record>, ring: seq<nat>, b: nat, k: nat, v: Block)
    requires BucketOK(f, recs, ring, b) && |recs| <= MAX_RECORDS && k < |ring|
    ensures var recs' := SetValue(recs, ring[k], v);
            && Change(f, recs, ring, b, recs', ring)
            && Entries(recs', ring) == Entries(recs, ring)[k := Pair(Entries(recs, ring)[k].id, v)]
  {
    var recs' := SetValue(recs, ring[k], v);
    forall i | 0 <= i < |ring| ensures Hooked(recs', ring, i) {
      assert Hooked(recs, ring, i);
    }
    assert ring[0] in ring;
  }

  lemma AppendLinked(recs: seq<Record>, ring: seq<nat>, b: nat, t: Triple, v: Block)
    requires ring != [] && b < |recs| < MAX_RECORDS
    requires InFile(recs, ring) && Placed(ring, b) && Linked(recs, ring)
    ensures Linked(Append(recs, b, ring[|ring| - 1], t, v), ring + [|recs|])
  {
    var recs', ring' := Append(recs, b, ring[|ring| - 1], t, v), ring + [|recs|];
    forall i | 0 <= i < |ring'| ensures Hooked(recs', ring', i) {
      if i < |ring| { assert Hooked(recs, ring, i); }
    }
  }

  lemma AppendEntries(recs: seq<Record>, ring: seq<nat>, b: nat, t: Triple, v: Block)
    requires ring != [] && b < |recs| < MAX_RECORDS && InFile(recs, ring)
    ensures var recs' := Append(recs, b, ring[|ring| - 1], t, v);
            && InFile(recs', ring + [|recs|])
            && Entries(recs', ring + [|recs|]) == Entries(recs, ring) + [Pair(t, v)]
  {
  }

  lemma AppendFrame(recs: seq<Record>, ring: seq<nat>, b: nat, t: Triple, v: Block)
    requires ring != [] && b < |recs| < MAX_RECORDS && InFile(recs, ring) && Placed(ring, b)
    ensures var recs' := Append(recs, b, ring[|ring| - 1], t, v);
            && |recs'| == |recs| + 1
            && OnlyBucket(recs, ring, b, recs') && Accounted(recs, ring, b, recs', ring + [|recs|])
  {
    assert ring[0] in ring + [|recs|];
  }

  lemma AppendPlaced(ring: seq<nat>, b: nat, n: nat)
    requires Placed(ring, b) && ring != [] && FILE_TABLE_LEN <= n
    requires forall i :: 0 <= i < |ring| ==> ring[i] < n
    ensures Placed(ring + [n], b)
  {
  }

  lemma AppendKeyed(es: seq<Pair>, f: nat, b: nat, t: Triple, v: Block)
    requires Keyed(es, f, b) && Absent(es, t)
    requires FileOf(t.hash1) == f && BucketOf(t.hash1) == b
    ensures Keyed(es + [Pair(t, v)], f, b)
  {
  }

  /** Appending grows the ring, and the association list it holds, at the end. */
  lemma AppendOK(f: nat, recs: seq<Record>, ring: seq<nat>, b: nat, t: Triple, v: Block)
    requires BucketOK(f, recs, ring, b) && FILE_TABLE_LEN <= |recs| < MAX_RECORDS && ring != []
    requires FileOf(t.hash1) == f && BucketOf(t.hash1) == b
    requires Absent(Entries(recs, ring), t)
    ensures var recs' := Append(recs, b, ring[|ring| - 1], t, v);
            && Change(f, recs, ring, b, recs', ring + [|recs|])
            && Entries(recs', ring + [|recs|]) == Entries(recs, ring) + [Pair(t, v)]
  {
    hide Append, OnlyBucket, Accounted, Linked, Placed, Keyed, Absent;
    AppendLinked(recs, ring, b, t, v);
    AppendEntries(recs, ring, b, t, v);
    AppendFrame(recs, ring, b, t, v);
    AppendPlaced(ring, b, |recs|);
    AppendKeyed(Entries(recs, ring), f, b, t, v);
  }

  lemma UnlinkLinked(recs: seq<Record>, ring: seq<nat>, b: nat, k: nat)
    requires 1 <= k < |ring| && b < |recs| <= MAX_RECORDS
    requires InFile(recs, ring) && Placed(ring, b) && Linked(recs, ring)
    ensures Linked(Unlink(recs, ring[k], Prev(ring, k), Next(ring, k)), RemoveAt(ring, k))
  {
    var recs', ring' := Unlink(recs, ring[k], Prev(ring, k), Next(ring, k)), RemoveAt(ring, k);
    forall i | 0 <= i < |ring'| ensures Hooked(recs', ring', i) {
      assert Hooked(recs, ring, if i < k then i else i + 1);
    }
  }

  /** Unlinking blanks the node and changes only links elsewhere. */
  lemma UnlinkContent(recs: seq<Record>, cur: nat, l: nat, r: nat, s: nat)
    requires cur < |recs| <= MAX_RECORDS && l < |recs| && r < |recs| && s < |recs|
    ensures var recs' := Unlink(recs, cur, l, r);
            && |recs'| == |recs|
            && (s != cur ==> recs'[s].Id() == recs[s].Id() && recs'[s].value == recs[s].value)
            && (s != cur && s != l && s != r ==> recs'[s] == recs[s])
            && (l != cur && r != cur ==> recs'[cur] == Blank())
  {
  }

  lemma UnlinkEntries(recs: seq<Record>, ring: seq<nat>, b: nat, k: nat)
    requires 1 <= k < |ring| && |recs| <= MAX_RECORDS && InFile(recs, ring) && Placed(ring, b)
    ensures var recs' := Unlink(recs, ring[k], Prev(ring, k), Next(ring, k));
            && InFile(recs', RemoveAt(ring, k))
            && Entries(recs', RemoveAt(ring, k)) == RemoveAt(Entries(recs, ring), k)
            && recs'[ring[k]].IsEmpty()
  {
    hide Unlink;
    var l, r, ring' := Prev(ring, k), Next(ring, k), RemoveAt(ring, k);
    UnlinkContent(recs, ring[k], l, r, ring[k]);
    forall i | 0 <= i < |ring'|
      ensures ring'[i] < |recs|
      ensures var s := ring'[i]; Unlink(recs, ring[k], l, r)[s].Id() == recs[s].Id()
      ensures var s := ring'[i]; Unlink(recs, ring[k], l, r)[s].value == recs[s].value
    {
      assert ring'[i] == ring[if i < k then i else i + 1];
      UnlinkContent(recs, ring[k], l, r, ring'[i]);
    }
  }

  lemma RemoveAtMembers<T>(s: seq<T>, k: nat)
    requires k < |s|
    ensures forall x :: x in s ==> x == s[k] || x in RemoveAt(s, k)
  {
    forall x | x in s && x != s[k] ensures x in RemoveAt(s, k) {
      var i :| 0 <= i < |s| && s[i] == x;
      assert x == RemoveAt(s, k)[if i < k then i else i - 1];
    }
  }

  lemma RemovePlaced(ring: seq<nat>, b: nat, k: nat)
    requires Placed(ring, b) && 1 <= k < |ring|
    ensures Placed(RemoveAt(ring, k), b)
  {
  }

  lemma RemoveKeyed(es: seq<Pair>, f: nat, b: nat, k: nat)
    requires Keyed(es, f, b) && k < |es|
    ensures Keyed(RemoveAt(es, k), f, b)
  {
  }

  lemma UnlinkFrame(recs: seq<Record>, ring: seq<nat>, b: nat, k: nat)
    requires 1 <= k < |ring| && |recs| <= MAX_RECORDS && InFile(recs, ring) && Placed(ring, b)
    ensures var recs' := Unlink(recs, ring[k], Prev(ring, k), Next(ring, k));
            && |recs'| == |recs|
            && OnlyBucket(recs, ring, b, recs') && Accounted(recs, ring, b, recs', RemoveAt(ring, k))
  {
    hide Unlink;
    var l, r := Prev(ring, k), Next(ring, k);
    assert l in ring && r in ring && RemoveAt(ring, k)[0] == b;
    UnlinkContent(recs, ring[k], l, r, ring[k]);
    UnlinkEntries(recs, ring, b, k);
    RemoveAtMembers(ring, k);
    forall s | 0 <= s < |recs| && s !in ring ensures Unlink(recs, ring[k], l, r)[s] == recs[s] {
      UnlinkContent(recs, ring[k], l, r, s);
    }
  }

  /** Unlinking any node but the head removes that position from the association list. */
  lemma UnlinkOK(f: nat, recs: seq<Record>, ring: seq<nat>, b: nat, k: nat)
    requires BucketOK(f, recs, ring, b) && |recs| <= MAX_RECORDS && 1 <= k < |ring|
    ensures var recs' := Unlink(recs, ring[k], Prev(ring, k), Next(ring, k));
            && Change(f, recs, ring, b, recs', RemoveAt(ring, k))
            && Entries(recs', RemoveAt(ring, k)) == RemoveAt(Entries(recs, ring), k)
  {
    hide Unlink, OnlyBucket, Accounted, Linked, Placed, Keyed;
    UnlinkLinked(recs, ring, b, k);
    UnlinkEntries(recs, ring, b, k);
    UnlinkFrame(recs, ring, b, k);
    RemovePlaced(ring, b, k);
    RemoveKeyed(Entries(recs, ring), f, b, k);
  }

  lemma KillHeadOK(f: nat, recs: seq<Record>, ring: seq<nat>, b: nat)
    requires BucketOK(f, recs, ring, b) && |recs| <= MAX_RECORDS && |ring| == 1
    ensures Change(f, recs, ring, b, KillHead(recs, b), [])
  {
  }

  /** The slots of the ring after its head was deleted: the head slot now holds the second entry. */
  function Pulled(ring: seq<nat>): seq<nat>
    requires |ring| >= 2
  {
    RemoveAt(ring, 1)
  }

  lemma PullUpLinked(recs: seq<Record>, ring: seq<nat>, b: nat)
    requires |ring| >= 2 && b < |recs| <= MAX_RECORDS
    requires InFile(recs, ring) && Placed(ring, b) && Linked(recs, ring)
    ensures Linked(PullUp(recs, b, ring[1], Next(ring, 1)), Pulled(ring))
  {
    var recs', ring' := PullUp(recs, b, ring[1], Next(ring, 1)), Pulled(ring);
    assert Hooked(recs, ring, 0);
    forall i | 0 <= i < |ring'| ensures Hooked(recs', ring', i) {
      assert Hooked(recs, ring, i + 1);
    }
  }

  lemma PullUpEntries(recs: seq<Record>, ring: seq<nat>, b: nat)
    requires |ring| >= 2 && b < |recs| <= MAX_RECORDS && InFile(recs, ring) && Placed(ring, b)
    ensures var recs' := PullUp(recs, b, ring[1], Next(ring, 1));
            && InFile(recs', Pulled(ring))
            && Entries(recs', Pulled(ring)) == Entries(recs, ring)[1..]
            && recs'[ring[1]].IsEmpty()
  {
  }

  /** Deleting the head of a longer ring is taking the tail of the association list. */
  lemma PullUpOK(f: nat, recs: seq<Record>, ring: seq<nat>, b: nat)
    requires BucketOK(f, recs, ring, b) && |recs| <= MAX_RECORDS && |ring| >= 2
    ensures var recs' := PullUp(recs, b, ring[1], Next(ring, 1));
            && Change(f, recs, ring, b, recs', Pulled(ring))
            && Entries(recs', Pulled(ring)) == Entries(recs, ring)[1..]
  {
    PullUpLinked(recs, ring, b);
    PullUpEntries(recs, ring, b);
    RemoveAtMembers(ring, 1);
  }
}
