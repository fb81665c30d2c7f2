/** The persistent store: one ring-structured file per residue of hash1, behind read, write and delete. */
module KVStore {
  import opened Types
  import opened ByteFile
  import opened Rings
  import opened Scan
  import AL = AssocList

  // ---------- the disk as a value ----------

  /** File contents by file index, the rings threaded through each file, and the mapping they hold together. */
  datatype Image = Image(files: map<nat, seq<Byte>>, rings: map<nat, seq<seq<nat>>>, contents: map<Triple, Block>)

  ghost predicate FileValid(img: Image, f: nat)
    requires f in img.files && f in img.rings
  {
    Aligned(img.files[f]) && FileOK(f, Records(img.files[f]), img.rings[f])
  }

  ghost predicate FilesValid(img: Image) {
    && img.files.Keys == img.rings.Keys
    && forall f :: f in img.files ==> f < HASH_TABLE_LEN && FileValid(img, f)
  }

  /** The association list in bucket b of file f; a file that does not exist has none. */
  ghost function ListAt(img: Image, f: nat, b: nat): (es: seq<AL.Pair>)
    requires FilesValid(img) && b < FILE_TABLE_LEN
  {
    if f in img.files then
      assert FileValid(img, f);
      assert BucketOK(f, Records(img.files[f]), img.rings[f][b], b);
      Entries(Records(img.files[f]), img.rings[f][b])
    else []
  }

  ghost function ListFor(img: Image, t: Triple): seq<AL.Pair>
    requires FilesValid(img)
  {
    ListAt(img, FileOf(t.hash1), BucketOf(t.hash1))
  }

  /** The slots of bucket b of file f, from its head. */
  ghost function RingAt(img: Image, f: nat, b: nat): seq<nat>
    requires FilesValid(img) && b < FILE_TABLE_LEN
  {
    if f in img.files then assert FileValid(img, f); img.rings[f][b] else []
  }

  /** A file that does not exist yet counts as its blank heads. */
  ghost function RecordsOf(img: Image, f: nat): seq<Record> {
    if f in img.files then Records(img.files[f]) else seq(FILE_TABLE_LEN, _ => Blank())
  }

  /** How many slots a write of t appends. */
  ghost function Appends(es: seq<AL.Pair>, t: Triple): nat {
    if es == [] || AL.Get(es, t).Some? then 0 else 1
  }

  /** All buckets together are the finite map `contents`. */
  ghost predicate Holds(img: Image)
    requires FilesValid(img)
  {
    forall t {:trigger ListFor(img, t)} :: AL.Get(ListFor(img, t), t) == Lookup(img.contents, t)
  }

  ghost predicate ImageOK(img: Image) {
    FilesValid(img) && Holds(img)
  }

  /** File f rewritten to `bytes` by a change of bucket b. */
  function Rewritten(img: Image, f: nat, bytes: seq<Byte>, b: nat, ring: seq<nat>, contents: map<Triple, Block>): Image
    requires f in img.rings && b < |img.rings[f]|
  {
    Image(img.files[f := bytes], img.rings[f := img.rings[f][b := ring]], contents)
  }

  /** Every bucket but bucket b of file f keeps its slots and what they hold. */
  ghost predicate ElsewhereSame(img: Image, img': Image, f: nat, b: nat)
    requires FilesValid(img) && FilesValid(img')
  {
    forall g: nat, c: nat :: c < FILE_TABLE_LEN && (g != f || c != b) ==>
      ListAt(img', g, c) == ListAt(img, g, c) && RingAt(img', g, c) == RingAt(img, g, c)
  }

  ghost predicate SameLists(img: Image, img': Image)
    requires FilesValid(img) && FilesValid(img')
  {
    forall g: nat, c: nat :: c < FILE_TABLE_LEN ==>
      ListAt(img', g, c) == ListAt(img, g, c) && RingAt(img', g, c) == RingAt(img, g, c)
  }

  /** File f kept its dead overflow slots and grew by n; the other files are the same. */
  ghost predicate OnlyFileGrew(img: Image, img': Image, f: nat, n: nat) {
    && SlotsKept(RecordsOf(img, f), RecordsOf(img', f), n)
    && forall g: nat :: g != f ==> Lookup(img'.files, g) == Lookup(img.files, g)
  }

  lemma RewrittenFiles(img: Image, f: nat, bytes: seq<Byte>, b: nat, ring: seq<nat>, contents: map<Triple, Block>)
    requires FilesValid(img) && f in img.files && b < FILE_TABLE_LEN && FileValid(img, f) && Aligned(bytes)
    requires Change(f, Records(img.files[f]), img.rings[f][b], b, Records(bytes), ring)
    ensures FilesValid(Rewritten(img, f, bytes, b, ring, contents))
  {
    var img' := Rewritten(img, f, bytes, b, ring, contents);
    ReplaceRing(f, Records(img.files[f]), img.rings[f], b, Records(bytes), ring);
    forall g | g in img'.files ensures g < HASH_TABLE_LEN && FileValid(img', g) {
      if g != f { assert FileValid(img, g); }
    }
  }

  lemma RewrittenOK(img: Image, f: nat, bytes: seq<Byte>, b: nat, ring: seq<nat>, contents: map<Triple, Block>)
    requires FilesValid(img) && f in img.files && b < FILE_TABLE_LEN && FileValid(img, f) && Aligned(bytes)
    requires Change(f, Records(img.files[f]), img.rings[f][b], b, Records(bytes), ring)
    ensures var img' := Rewritten(img, f, bytes, b, ring, contents);
            && FilesValid(img')
            && ListAt(img', f, b) == Entries(Records(bytes), ring)
            && ElsewhereSame(img, img', f, b)
            && OnlyFileGrew(img, img', f, Count(bytes) - Count(img.files[f]))
  {
    var img' := Rewritten(img, f, bytes, b, ring, contents);
    assert BucketOK(f, Records(img.files[f]), img.rings[f][b], b);
    ChangeKeepsDead(f, Records(img.files[f]), img.rings[f][b], b, Records(bytes), ring);
    RewrittenFiles(img, f, bytes, b, ring, contents);
    forall g: nat, c: nat | c < FILE_TABLE_LEN && (g != f || c != b)
      ensures ListAt(img', g, c) == ListAt(img, g, c) && RingAt(img', g, c) == RingAt(img, g, c)
    {
      if g == f { OtherBucket(f, Records(img.files[f]), img.rings[f], b, Records(bytes), c); }
    }
  }

  /** When the one changed list and the map change alike, the image still holds the map. */
  lemma RewrittenHolds(img: Image, img': Image, f: nat, b: nat)
    requires ImageOK(img) && FilesValid(img') && b < FILE_TABLE_LEN && ElsewhereSame(img, img', f, b)
    requires forall t: Triple :: FileOf(t.hash1) == f && BucketOf(t.hash1) == b ==>
               AL.Get(ListAt(img', f, b), t) == Lookup(img'.contents, t)
    requires forall t: Triple :: FileOf(t.hash1) != f || BucketOf(t.hash1) != b ==>
               Lookup(img'.contents, t) == Lookup(img.contents, t)
    ensures ImageOK(img')
  {
    forall t: Triple ensures AL.Get(ListFor(img', t), t) == Lookup(img'.contents, t) {
      assert AL.Get(ListFor(img, t), t) == Lookup(img.contents, t);
    }
  }

  lemma PutHolds(img: Image, img': Image, t: Triple, v: Block)
    requires ImageOK(img) && FilesValid(img') && img'.contents == img.contents[t := v]
    requires ElsewhereSame(img, img', FileOf(t.hash1), BucketOf(t.hash1))
    requires ListFor(img', t) == AL.Put(ListFor(img, t), t, v)
    ensures ImageOK(img')
  {
    forall u: Triple | FileOf(u.hash1) == FileOf(t.hash1) && BucketOf(u.hash1) == BucketOf(t.hash1)
      ensures AL.Get(ListFor(img', t), u) == Lookup(img'.contents, u)
    {
      AL.GetPut(ListFor(img, t), t, v, u);
      assert AL.Get(ListFor(img, u), u) == Lookup(img.contents, u);
    }
    RewrittenHolds(img, img', FileOf(t.hash1), BucketOf(t.hash1));
  }

  lemma DeleteHolds(img: Image, img': Image, t: Triple)
    requires ImageOK(img) && FilesValid(img') && img'.contents == img.contents - {t}
    requires ElsewhereSame(img, img', FileOf(t.hash1), BucketOf(t.hash1))
    requires AL.UniqueIds(ListFor(img, t))
    requires ListFor(img', t) == AL.Delete(ListFor(img, t), t)
    ensures ImageOK(img')
  {
    forall u: Triple | FileOf(u.hash1) == FileOf(t.hash1) && BucketOf(u.hash1) == BucketOf(t.hash1)
      ensures AL.Get(ListFor(img', t), u) == Lookup(img'.contents, u)
    {
      AL.GetDelete(ListFor(img, t), t, u);
      assert AL.Get(ListFor(img, u), u) == Lookup(img.contents, u);
    }
    RewrittenHolds(img, img', FileOf(t.hash1), BucketOf(t.hash1));
  }

  lemma NewFileOK(img: Image, f: nat, bytes: seq<Byte>)
    requires ImageOK(img) && f < HASH_TABLE_LEN && f !in img.files && Aligned(bytes)
    requires Records(bytes) == seq(FILE_TABLE_LEN, _ => Blank())
    ensures var rings := seq(FILE_TABLE_LEN, _ => []);
            var img' := Image(img.files[f := bytes], img.rings[f := rings], img.contents);
            ImageOK(img') && SameLists(img, img') && OnlyFileGrew(img, img', f, 0)
  {
    var rings: seq<seq<nat>> := seq(FILE_TABLE_LEN, _ => []);
    var img' := Image(img.files[f := bytes], img.rings[f := rings], img.contents);
    assert FileValid(img', f);
    forall g | g in img'.files ensures g < HASH_TABLE_LEN && FileValid(img', g) {
      if g != f { assert FileValid(img, g); }
    }
    forall t: Triple ensures AL.Get(ListFor(img', t), t) == Lookup(img'.contents, t) {
      assert AL.Get(ListFor(img, t), t) == Lookup(img.contents, t);
      if FileOf(t.hash1) != f { assert ListFor(img', t) == ListFor(img, t); }
    }
  }

  // ---------- runs of store operations ----------

  /** A call of `write_to_db` or of `delete_from_db`. */
  datatype StoreOp = Wrote(id: Triple, value: Block) | Erased(id: Triple)

  predicate Concerns(op: StoreOp, f: nat, b: nat) {
    FileOf(op.id.hash1) == f && BucketOf(op.id.hash1) == b
  }

  function OnList(es: seq<AL.Pair>, op: StoreOp): seq<AL.Pair> {
    if op.Wrote? then AL.Put(es, op.id, op.value) else AL.Delete(es, op.id)
  }

  /** The association list of bucket b of file f after the operations. */
  function ListAfter(es: seq<AL.Pair>, ops: seq<StoreOp>, f: nat, b: nat): seq<AL.Pair> {
    if ops == [] then es
    else
      var op, before := ops[|ops| - 1], ListAfter(es, ops[..|ops| - 1], f, b);
      if Concerns(op, f, b) then OnList(before, op) else before
  }

  function OnContents(m: map<Triple, Block>, op: StoreOp): map<Triple, Block> {
    if op.Wrote? then m[op.id := op.value] else m - {op.id}
  }

  /** The mapping after the operations. */
  function ContentsAfter(m: map<Triple, Block>, ops: seq<StoreOp>): map<Triple, Block> {
    if ops == [] then m
    else
      OnContents(ContentsAfter(m, ops[..|ops| - 1]), ops[|ops| - 1])
  }

  /** The slots the operations append to file f: one for each write whose bucket is not empty and lacks its triple. */
  ghost function Appended(img: Image, ops: seq<StoreOp>, f: nat): nat
    requires FilesValid(img)
  {
    if ops == [] then 0
    else
      var op, before := ops[|ops| - 1], ops[..|ops| - 1];
      var b := BucketOf(op.id.hash1);
      Appended(img, before, f) +
      if op.Wrote? && FileOf(op.id.hash1) == f then Appends(ListAfter(ListAt(img, f, b), before, f, b), op.id) else 0
  }

  /**
   The operations turn img into img': in every bucket of every file they are association-list operations,
   every file grows by exactly what they append to it, and no dead overflow slot comes back to life.
   */
  ghost predicate Ran(img: Image, ops: seq<StoreOp>, img': Image) {
    && ImageOK(img) && ImageOK(img')
    && img'.contents == ContentsAfter(img.contents, ops)
    && (forall f: nat, b: nat {:trigger ListAt(img', f, b)} :: b < FILE_TABLE_LEN ==>
          ListAt(img', f, b) == ListAfter(ListAt(img, f, b), ops, f, b))
    && (forall f: nat {:trigger RecordsOf(img', f)} ::
          SlotsKept(RecordsOf(img, f), RecordsOf(img', f), Appended(img, ops, f)))
  }

  /** From head slot b of file f, along the right links, one comes to the entry for t, which has value v. */
  ghost predicate HeldAt(img: Image, f: nat, b: nat, t: Triple, v: Block) {
    && f in img.files && f in img.rings && b < |img.rings[f]|
    && var recs, ring := Records(img.files[f]), img.rings[f][b];
       && InFile(recs, ring) && Linked(recs, ring)
       && ring != [] && ring[0] == b && recs[b].left != 0xFFFF_FFFF_FFFF_FFFF
       && exists k :: 0 <= k < |ring| && recs[ring[k]].Id() == t && recs[ring[k]].value == v
  }

  /** A stored triple is found in file hash1 mod 1021, from head slot hash1 mod 8191. */
  lemma OnDisk(img: Image, t: Triple)
    requires ImageOK(img) && t in img.contents
    ensures HeldAt(img, t.hash1 % 1021, t.hash1 % 8191, t, img.contents[t])
  {
    var f, b := FileOf(t.hash1), BucketOf(t.hash1);
    assert AL.Get(ListFor(img, t), t) == Lookup(img.contents, t);
    assert f in img.files;
    assert FileValid(img, f);
    var recs, ring := Records(img.files[f]), img.rings[f][b];
    assert BucketOK(f, recs, ring, b);
    var k := AL.GetSome(Entries(recs, ring), t);
    AL.GetAt(Entries(recs, ring), k);
    assert Hooked(recs, ring, 0);
    assert recs[ring[k]].Id() == t && recs[ring[k]].value == img.contents[t];
  }

  /** A triple that is not stored is in no live record of file hash1 mod 1021. */
  lemma NotOnDisk(img: Image, t: Triple, s: nat)
    requires ImageOK(img) && t !in img.contents
    requires t.hash1 % 1021 in img.files && s < |Records(img.files[t.hash1 % 1021])|
    requires Records(img.files[t.hash1 % 1021])[s].Id() == t
    ensures var r := Records(img.files[t.hash1 % 1021])[s]; r.left == r.right == 0xFFFF_FFFF_FFFF_FFFF
  {
    var f := FileOf(t.hash1);
    assert FileValid(img, f);
    var recs := Records(img.files[f]);
    if !recs[s].IsEmpty() {
      var b, i := LiveInRing(f, recs, img.rings[f], s);
      assert AL.Get(ListFor(img, t), t) == Lookup(img.contents, t);
      AL.GetAt(Entries(recs, img.rings[f][b]), i);
    }
  }

  /** The nodes of a ring: each right link names the next slot, each left link the one before, around the circle. */
  lemma RingLinks(img: Image, f: nat, b: nat, i: nat)
    requires FilesValid(img) && f in img.files && b < 8191 && i < |RingAt(img, f, b)|
    ensures var recs, ring := Records(img.files[f]), RingAt(img, f, b);
            && ring[i] < |recs|
            && recs[ring[i]].right == (if i + 1 < |ring| then ring[i + 1] else ring[0])
            && recs[ring[i]].left == (if i > 0 then ring[i - 1] else ring[|ring| - 1])
            && ring[0] == b && (i > 0 ==> ring[i] >= 8191)
            && recs[ring[i]].hash1 % 1021 == f && recs[ring[i]].hash1 % 8191 == b
  {
    assert FileValid(img, f);
    var recs, ring := Records(img.files[f]), RingAt(img, f, b);
    assert BucketOK(f, recs, ring, b);
    assert Hooked(recs, ring, i);
    assert FileOf(Entries(recs, ring)[i].id.hash1) == f;
  }

  /** One call touches the file that hash1 names modulo 1021, and no other. */
  lemma OtherFilesUntouched(img: Image, op: StoreOp, img': Image)
    requires Performed(img, op, img')
    ensures forall g: nat :: g != op.id.hash1 % 1021 ==> Lookup(img'.files, g) == Lookup(img.files, g)
  {
    assert FileOf(op.id.hash1) == op.id.hash1 % 1021;
  }

  lemma RanNothing(img: Image)
    requires ImageOK(img)
    ensures Ran(img, [], img)
  {
  }

  /** The slots of a ring after its k-th entry was deleted: the second node moves into the head slot. */
  function Without(ring: seq<nat>, k: nat): seq<nat>
    requires k < |ring|
  {
    if |ring| == 1 then [] else RemoveAt(ring, if k == 0 then 1 else k)
  }

  /** Which slots make up the ring of the triple afterwards; n is the end of the file. */
  ghost predicate RingStep(es: seq<AL.Pair>, ring: seq<nat>, op: StoreOp, n: nat, ring': seq<nat>) {
    if AL.Get(es, op.id) == None then
      ring' == if op.Erased? then ring else if ring == [] then [op.id.hash1 % 8191] else ring + [n]
    else if op.Wrote? then ring' == ring
    else exists k: nat :: k < |ring| && k < |es| && es[k].id == op.id && ring' == Without(ring, k)
  }

  ghost predicate RingStepped(img: Image, op: StoreOp, img': Image)
    requires FilesValid(img) && FilesValid(img')
  {
    var f, b := op.id.hash1 % 1021, op.id.hash1 % 8191;
    RingStep(ListAt(img, f, b), RingAt(img, f, b), op, |RecordsOf(img, f)|, RingAt(img', f, b))
  }

  /** What one call promises about the disk. */
  ghost predicate Performed(img: Image, op: StoreOp, img': Image) {
    && ImageOK(img) && ImageOK(img')
    && img'.contents == OnContents(img.contents, op)
    && ListFor(img', op.id) == OnList(ListFor(img, op.id), op)
    && ElsewhereSame(img, img', FileOf(op.id.hash1), BucketOf(op.id.hash1))
    && OnlyFileGrew(img, img', FileOf(op.id.hash1), if op.Wrote? then Appends(ListFor(img, op.id), op.id) else 0)
    && RingStepped(img, op, img')
  }

  lemma RanOne(img: Image, op: StoreOp, img': Image)
    requires Performed(img, op, img')
    ensures Ran(img, [op], img')
  {
    assert [op][..0] == [];
    forall f: nat, b: nat | b < FILE_TABLE_LEN
      ensures ListAt(img', f, b) == ListAfter(ListAt(img, f, b), [op], f, b)
    {
      assert ListAfter(ListAt(img, f, b), [], f, b) == ListAt(img, f, b);
    }
    forall f: nat ensures SlotsKept(RecordsOf(img, f), RecordsOf(img', f), Appended(img, [op], f)) {
      assert Appended(img, [], f) == 0;
      if f != FileOf(op.id.hash1) { assert Lookup(img'.files, f) == Lookup(img.files, f); }
    }
  }

  lemma {:induction false} ListAfterBoth(es: seq<AL.Pair>, a: seq<StoreOp>, c: seq<StoreOp>, f: nat, b: nat)
    ensures ListAfter(es, a + c, f, b) == ListAfter(ListAfter(es, a, f, b), c, f, b)
    decreases |c|
  {
    if c == [] {
      assert a + c == a;
    } else {
      assert (a + c)[..|a + c| - 1] == a + c[..|c| - 1];
      ListAfterBoth(es, a, c[..|c| - 1], f, b);
    }
  }

  lemma {:induction false} ContentsAfterBoth(m: map<Triple, Block>, a: seq<StoreOp>, c: seq<StoreOp>)
    ensures ContentsAfter(m, a + c) == ContentsAfter(ContentsAfter(m, a), c)
    decreases |c|
  {
    if c == [] {
      assert a + c == a;
    } else {
      assert (a + c)[..|a + c| - 1] == a + c[..|c| - 1];
      ContentsAfterBoth(m, a, c[..|c| - 1]);
    }
  }

  lemma {:induction false} AppendedBoth(img: Image, a: seq<StoreOp>, img': Image, c: seq<StoreOp>, f: nat)
    requires FilesValid(img) && FilesValid(img')
    requires forall b: nat :: b < FILE_TABLE_LEN ==> ListAt(img', f, b) == ListAfter(ListAt(img, f, b), a, f, b)
    ensures Appended(img, a + c, f) == Appended(img, a, f) + Appended(img', c, f)
    decreases |c|
  {
    if c == [] {
      assert a + c == a;
    } else {
      var op, before := c[|c| - 1], c[..|c| - 1];
      assert (a + c)[..|a + c| - 1] == a + before && (a + c)[|a + c| - 1] == op;
      AppendedBoth(img, a, img', before, f);
      ListAfterBoth(ListAt(img, f, BucketOf(op.id.hash1)), a, before, f, BucketOf(op.id.hash1));
    }
  }

  /** Two runs in a row are one run. */
  lemma RanThen(img: Image, a: seq<StoreOp>, img': Image, c: seq<StoreOp>, img'': Image)
    requires Ran(img, a, img') && Ran(img', c, img'')
    ensures Ran(img, a + c, img'')
  {
    ContentsAfterBoth(img.contents, a, c);
    forall f: nat, b: nat | b < FILE_TABLE_LEN
      ensures ListAt(img'', f, b) == ListAfter(ListAt(img, f, b), a + c, f, b)
    {
      ListAfterBoth(ListAt(img, f, b), a, c, f, b);
      assert ListAt(img', f, b) == ListAfter(ListAt(img, f, b), a, f, b);
    }
    forall f: nat ensures SlotsKept(RecordsOf(img, f), RecordsOf(img'', f), Appended(img, a + c, f)) {
      AppendedBoth(img, a, img', c, f);
      SlotsKeptTwice(RecordsOf(img, f), RecordsOf(img', f), RecordsOf(img'', f), Appended(img, a, f), Appended(img', c, f));
    }
  }

  /** Starting from an empty disk, a file has its bucket heads and one slot for each append ever made to it. */
  lemma SlotsFromEmpty(img: Image, ops: seq<StoreOp>, img': Image, f: nat)
    requires img.files == map[] && Ran(img, ops, img') && f in img'.files
    ensures Count(img'.files[f]) == FILE_TABLE_LEN + Appended(img, ops, f)
  {
    assert SlotsKept(RecordsOf(img, f), RecordsOf(img', f), Appended(img, ops, f));
  }

  // ---------- the disk and the store object ----------

  /** The operations so far, and the disk they led to. */
  datatype Moment = Moment(log: seq<StoreOp>, img: Image)

  /** The operations logged between m and m', and nothing else, led from the one disk to the other. */
  ghost predicate Led(m: Moment, m': Moment) {
    m.log <= m'.log && Ran(m.img, m'.log[|m.log|..], m'.img)
  }

  lemma LedNowhere(m: Moment)
    requires ImageOK(m.img)
    ensures Led(m, m)
  {
    RanNothing(m.img);
    assert m.log[|m.log|..] == [];
  }

  lemma LedOn(m: Moment, m': Moment, m'': Moment)
    requires Led(m, m') && Led(m', m'')
    ensures Led(m, m'')
  {
    RanThen(m.img, m'.log[|m.log|..], m'.img, m''.log[|m'.log|..], m''.img);
    assert m''.log[|m.log|..] == m'.log[|m.log|..] + m''.log[|m'.log|..];
  }

  ghost predicate RoomFor(files: map<nat, seq<Byte>>, k: nat) {
    && FILE_TABLE_LEN + k <= MAX_RECORDS
    && forall f :: f in files ==> Count(files[f]) + k <= MAX_RECORDS
  }

  /** The `db` directory. It outlives the process; the ghost fields describe what its bytes mean and how they came about. */
  class Disk {
    var files: map<nat, seq<Byte>>
    ghost var rings: map<nat, seq<seq<nat>>>
    ghost var contents: map<Triple, Block>
    /** Every operation ever performed on the disk. */
    ghost var log: seq<StoreOp>

    ghost function Img(): Image
      reads `files, `rings, `contents
    {
      Image(files, rings, contents)
    }

    ghost predicate Valid()
      reads `files, `rings, `contents
    {
      ImageOK(Img())
    }

    ghost function Now(): Moment
      reads this
    {
      Moment(log, Img())
    }

    /** Logs the operation that was performed since m. */
    ghost method Record(op: StoreOp, m: Moment)
      requires m.log == log && Performed(m.img, op, Img())
      modifies `log
      ensures log == old(log) + [op] && Led(m, Now())
    {
      RanOne(m.img, op, Img());
      log := log + [op];
      assert log[|m.log|..] == [op];
    }

    /** Room for one more entry in the file of hash h. */
    ghost predicate Room(h: U64)
      reads `files
    {
      FileOf(h) in files ==> Count(files[FileOf(h)]) < MAX_RECORDS
    }

    /** Every file, also one not created yet, can take k more entries. */
    ghost predicate HasRoom(k: nat)
      reads `files
    {
      RoomFor(files, k)
    }

    constructor ()
      ensures Valid() && files == map[] && contents == map[] && log == []
    {
      files, rings, contents, log := map[], map[], map[], [];
    }
  }

  class KVStore {
    const disk: Disk
    var fileExists: seq<bool>

    ghost predicate Valid()
      reads this, disk
    {
      && disk.Valid()
      && |fileExists| == HASH_TABLE_LEN
      && forall f :: 0 <= f < HASH_TABLE_LEN ==> (fileExists[f] <==> f in disk.files)
    }

    /** Construction followed by `init_kvstore`: probe which files are there. */
    constructor (d: Disk)
      requires d.Valid()
      ensures Valid() && disk == d
    {
      disk := d;
      fileExists := seq(HASH_TABLE_LEN, _ => false);
      new;
      for i := 0 to HASH_TABLE_LEN
        invariant |fileExists| == HASH_TABLE_LEN && disk == d && d.Valid()
        invariant forall f :: 0 <= f < i ==> (fileExists[f] <==> f in disk.files)
      {
        fileExists := fileExists[i := i in disk.files];
      }
    }

    /** Seeks to entry i and reads its four leading words. */
    static method ReadWords(fs: FStream, i: U64) returns (left: U64, right: U64, hash1: U64, hash2: U64)
      requires i < Count(fs.bytes) <= MAX_RECORDS
      modifies fs`pos
      ensures fs.pos == i * SIZE_OF_ONE_ENTRY + 32
      ensures var r := Records(fs.bytes)[i]; left == r.left && right == r.right && hash1 == r.hash1 && hash2 == r.hash2
    {
      fs.Seek(GetSeekVal(i));
      left := fs.ReadWord(i, Left);
      right := fs.ReadWord(i, Right);
      hash1 := fs.ReadWord(i, Hash1);
      hash2 := fs.ReadWord(i, Hash2);
    }

    /** Compares entry i with t; the key is read only if both hashes agree. */
    static method Matches(fs: FStream, i: U64, hash1: U64, hash2: U64, t: Triple) returns (m: bool)
      requires i < Count(fs.bytes) && fs.pos == i * SIZE_OF_ONE_ENTRY + 32
      requires var r := Records(fs.bytes)[i]; hash1 == r.hash1 && hash2 == r.hash2
      modifies fs`pos
      ensures m <==> Records(fs.bytes)[i].Id() == t
      ensures m ==> fs.pos == i * SIZE_OF_ONE_ENTRY + 288
    {
      m := false;
      if hash1 == t.hash1 && hash2 == t.hash2 {
        var key := fs.ReadBlock(i, Key);
        m := key == t.key;
      }
    }

    /** The walk all three operations share. It starts after the four words of the head were read. */
    static method FindEntry(fs: FStream, t: Triple, b: nat, left0: U64, right0: U64, hash1: U64, hash2: U64,
                            ghost ring: seq<nat>)
      returns (hit: bool, cur: U64, left: U64, right: U64, ghost k: nat)
      requires b < FILE_TABLE_LEN <= Count(fs.bytes) <= MAX_RECORDS
      requires Walkable(Records(fs.bytes), ring, b)
      requires fs.pos == b * SIZE_OF_ONE_ENTRY + 32
      requires var r := Records(fs.bytes)[b]; left0 == r.left && right0 == r.right && hash1 == r.hash1 && hash2 == r.hash2
      modifies fs`pos
      ensures hit ==> k < |ring| && cur == ring[k] && Records(fs.bytes)[cur].Id() == t
      ensures hit ==> left == Prev(ring, k) && right == Next(ring, k)
      ensures hit ==> fs.pos == cur * SIZE_OF_ONE_ENTRY + 288
      ensures !hit ==> forall i :: 0 <= i < |ring| ==> Records(fs.bytes)[ring[i]].Id() != t
      ensures !hit ==> left == ring[|ring| - 1]
    {
      ghost var recs := Records(fs.bytes);
      assert Hooked(recs, ring, 0);
      left, right, cur, k := left0, right0, b, 0;
      hit := Matches(fs, b, hash1, hash2, t);
      if hit { return; }
      cur, k := right, 1;
      while cur != b
        invariant 1 <= k <= |ring| && cur == Next(ring, k - 1)
        invariant forall i :: 0 <= i < k ==> recs[ring[i]].Id() != t
        invariant left == if k == 1 then Prev(ring, 0) else ring[k - 1]
        decreases |ring| - k
      {
        assert Hooked(recs, ring, k);
        var h1, h2;
        left, right, h1, h2 := ReadWords(fs, cur);
        hit := Matches(fs, cur, h1, h2, t);
        if hit { return; }
        left := cur;
        cur := right;
        k := k + 1;
      }
    }

    static method ReadEntry(fs: FStream, t: Triple, ghost f: nat, ghost ring: seq<nat>) returns (r: Option<Block>)
      requires FILE_TABLE_LEN <= Count(fs.bytes) <= MAX_RECORDS
      requires BucketOK(f, Records(fs.bytes), ring, BucketOf(t.hash1))
      modifies fs`pos
      ensures r == AL.Get(Entries(Records(fs.bytes), ring), t)
    {
      var b := BucketOf(t.hash1);
      ghost var recs := Records(fs.bytes);
      EmptyIffNoRing(f, recs, ring, b);
      var left, right, h1, h2 := ReadWords(fs, b);
      if IsFileEntryEmpty(left, right) { return None; }
      BucketWalkable(f, recs, ring, b);
      var hit, cur, l, rt, k := FindEntry(fs, t, b, left, right, h1, h2, ring);
      if hit {
        FoundAt(f, recs, ring, b, k);
        var v := fs.ReadBlock(cur, Value);
        r := Some(v);
      } else {
        NotFound(f, recs, ring, b, t);
        r := None;
      }
    }

    /** Returns the value stored for t, if any. */
    method ReadFromDb(t: Triple) returns (r: Option<Block>)
      requires Valid()
      ensures r == Lookup(disk.contents, t)
      ensures r.Some? ==> HeldAt(disk.Img(), t.hash1 % 1021, t.hash1 % 8191, t, r.value)
    {
      var f := FileOf(t.hash1);
      ghost var img := disk.Img();
      assert AL.Get(ListFor(img, t), t) == Lookup(img.contents, t);
      if t in img.contents { OnDisk(img, t); }
      if !fileExists[f] { return None; }
      assert FileValid(img, f);
      var fs := new FStream(disk.files[f]);
      ghost var ring := img.rings[f][BucketOf(t.hash1)];
      assert BucketOK(f, Records(fs.bytes), ring, BucketOf(t.hash1));
      r := ReadEntry(fs, t, f, ring);
    }

    // ---------- the writes that realise each change of the record array ----------

    static method FillHeadAt(fs: FStream, b: nat, t: Triple, v: Block)
      requires b < Count(fs.bytes) <= MAX_RECORDS
      modifies fs
      ensures |fs.bytes| == old(|fs.bytes|)
      ensures Records(fs.bytes) == FillHead(old(Records(fs.bytes)), b, t, v)
      ensures Records(fs.bytes) == old(Records(fs.bytes))[b := Record(b, b, t.hash1, t.hash2, t.key, v)]
    {
      fs.Seek(GetSeekVal(b));
      fs.WriteWord(b, b, Left);
      fs.WriteWord(b, b, Right);
      fs.WriteWord(t.hash1, b, Hash1);
      fs.WriteWord(t.hash2, b, Hash2);
      fs.WriteBlock(t.key, b, Key);
      fs.WriteBlock(v, b, Value);
    }

    static method SetLeft(fs: FStream, i: U64, v: U64)
      requires i < Count(fs.bytes) <= MAX_RECORDS
      modifies fs
      ensures |fs.bytes| == old(|fs.bytes|)
      ensures Records(fs.bytes) == var r := old(Records(fs.bytes)); r[i := r[i].(left := v)]
    {
      fs.Seek(GetSeekVal(i));
      fs.WriteWord(v, i, Left);
    }

    static method SetRight(fs: FStream, i: U64, v: U64)
      requires i < Count(fs.bytes) <= MAX_RECORDS
      modifies fs
      ensures |fs.bytes| == old(|fs.bytes|)
      ensures Records(fs.bytes) == var r := old(Records(fs.bytes)); r[i := r[i].(right := v)]
    {
      fs.Seek(GetSeekVal(i) + 8);
      fs.WriteWord(v, i, Right);
    }

    /** New entry at the end of the file; a ring of one gets both links of its head set at once. */
    static method AppendAt(fs: FStream, b: nat, left: U64, t: Triple, v: Block)
      requires Aligned(fs.bytes) && b < Count(fs.bytes) < MAX_RECORDS && left < Count(fs.bytes)
      modifies fs
      ensures Aligned(fs.bytes)
      ensures Records(fs.bytes) == Append(old(Records(fs.bytes)), b, left, t, v)
      ensures var r, r', n := old(Records(fs.bytes)), Records(fs.bytes), old(Count(fs.bytes));
              && |r'| == n + 1 && r'[n] == Record(left, b, t.hash1, t.hash2, t.key, v)
              && (if left == b then r'[b] == r[b].(left := n, right := n)
                  else r'[b] == r[b].(left := n) && r'[left] == r[left].(right := n))
              && forall s :: 0 <= s < n && s != b && s != left ==> r'[s] == r[s]
    {
      fs.SeekEnd();
      var position := fs.pos / SIZE_OF_ONE_ENTRY;
      fs.AppendEntry(Record(left, b, t.hash1, t.hash2, t.key, v));
      if left == b {
        fs.Seek(GetSeekVal(b));
        fs.WriteWord(position, b, Left);
        fs.WriteWord(position, b, Right);
      } else {
        SetRight(fs, left, position);
        SetLeft(fs, b, position);
      }
    }

    /** Four MAX words over entry i, whose start the position is at. */
    static method KillAt(fs: FStream, ghost i: nat)
      requires i < Count(fs.bytes) && fs.pos == i * SIZE_OF_ONE_ENTRY
      modifies fs
      ensures |fs.bytes| == old(|fs.bytes|) && fs.pos == old(fs.pos) + 32
      ensures Records(fs.bytes) == KillHead(old(Records(fs.bytes)), i)
      ensures var r := old(Records(fs.bytes));
              Records(fs.bytes) == r[i := Record(0xFFFF_FFFF_FFFF_FFFF, 0xFFFF_FFFF_FFFF_FFFF, 0xFFFF_FFFF_FFFF_FFFF,
                                                 0xFFFF_FFFF_FFFF_FFFF, r[i].key, r[i].value)]
    {
      fs.WriteWord(MAX_UINT64, i, Left);
      fs.WriteWord(MAX_UINT64, i, Right);
      fs.WriteWord(MAX_UINT64, i, Hash1);
      fs.WriteWord(MAX_UINT64, i, Hash2);
    }

    static method BlankAt(fs: FStream, i: U64)
      requires i < Count(fs.bytes) <= MAX_RECORDS
      modifies fs
      ensures |fs.bytes| == old(|fs.bytes|)
      ensures Records(fs.bytes) == old(Records(fs.bytes))[i := Blank()]
      ensures var zeros := seq(256, _ => 0);
              Records(fs.bytes)[i] == Record(0xFFFF_FFFF_FFFF_FFFF, 0xFFFF_FFFF_FFFF_FFFF, 0xFFFF_FFFF_FFFF_FFFF,
                                             0xFFFF_FFFF_FFFF_FFFF, zeros, zeros)
    {
      fs.Seek(GetSeekVal(i));
      KillAt(fs, i);
      fs.WriteBlock(EmptyString(), i, Key);
      fs.WriteBlock(EmptyString(), i, Value);
    }

    /** Everything of entry i but its left link. */
    static method ReplaceBody(fs: FStream, i: U64, right: U64, hash1: U64, hash2: U64, key: Block, value: Block)
      requires i < Count(fs.bytes) <= MAX_RECORDS
      modifies fs
      ensures |fs.bytes| == old(|fs.bytes|)
      ensures var r := old(Records(fs.bytes));
              Records(fs.bytes) == r[i := Record(r[i].left, right, hash1, hash2, key, value)]
    {
      fs.Seek(GetSeekVal(i) + 8);
      fs.WriteWord(right, i, Right);
      fs.WriteWord(hash1, i, Hash1);
      fs.WriteWord(hash2, i, Hash2);
      fs.WriteBlock(key, i, Key);
      fs.WriteBlock(value, i, Value);
    }

    static method UnlinkAt(fs: FStream, cur: U64, left: U64, right: U64)
      requires cur < Count(fs.bytes) <= MAX_RECORDS && left < Count(fs.bytes) && right < Count(fs.bytes)
      modifies fs
      ensures |fs.bytes| == old(|fs.bytes|)
      ensures Records(fs.bytes) == Unlink(old(Records(fs.bytes)), cur, left, right)
      ensures var r, r' := old(Records(fs.bytes)), Records(fs.bytes);
              && (cur != left && cur != right ==> r'[cur] == Blank())
              && (left != right && left != cur && right != cur ==>
                    r'[left] == r[left].(right := right) && r'[right] == r[right].(left := left))
              && (left == right && left != cur ==> r'[left] == r[left].(left := left, right := left))
              && forall s :: 0 <= s < |r| && s != cur && s != left && s != right ==> r'[s] == r[s]
    {
      BlankAt(fs, cur);
      SetRight(fs, left, right);
      SetLeft(fs, right, left);
    }

    /** Reads the second entry, kills its slot by seeking back one entry, and copies it over the head. */
    static method PullUpAt(fs: FStream, b: nat, second: U64, ghost third: nat)
      requires b < Count(fs.bytes) <= MAX_RECORDS && second < Count(fs.bytes) && third < Count(fs.bytes) && b != second
      requires Records(fs.bytes)[second].right == third
      modifies fs
      ensures |fs.bytes| == old(|fs.bytes|)
      ensures Records(fs.bytes) == PullUp(old(Records(fs.bytes)), b, second, third)
      ensures var r, r' := old(Records(fs.bytes)), Records(fs.bytes);
              && (third != second ==>
                    r'[second] == Record(0xFFFF_FFFF_FFFF_FFFF, 0xFFFF_FFFF_FFFF_FFFF, 0xFFFF_FFFF_FFFF_FFFF,
                                         0xFFFF_FFFF_FFFF_FFFF, r[second].key, r[second].value))
              && r'[b] == Record(if third == b then b else r[b].left, third,
                                 r[second].hash1, r[second].hash2, r[second].key, r[second].value)
              && (third != b && third != second ==> r'[third] == r[third].(left := b))
              && forall s :: 0 <= s < |r| && s != b && s != second && s != third ==> r'[s] == r[s]
    {
      fs.Seek(GetSeekVal(second) + 8);
      var right := fs.ReadWord(second, Right);
      var hash1 := fs.ReadWord(second, Hash1);
      var hash2 := fs.ReadWord(second, Hash2);
      var key := fs.ReadBlock(second, Key);
      var value := fs.ReadBlock(second, Value);
      fs.SeekCur(-SIZE_OF_ONE_ENTRY);
      KillAt(fs, second);
      SetLeft(fs, right, b);
      ReplaceBody(fs, b, right, hash1, hash2, key, value);
    }

    // ---------- writing and deleting one entry of an open file ----------

    static method WriteEntry(fs: FStream, t: Triple, v: Block, ghost ring: seq<nat>) returns (ghost ring': seq<nat>)
      requires Aligned(fs.bytes) && FILE_TABLE_LEN <= Count(fs.bytes) < MAX_RECORDS
      requires BucketOK(FileOf(t.hash1), Records(fs.bytes), ring, BucketOf(t.hash1))
      modifies fs
      ensures Aligned(fs.bytes)
      ensures Change(FileOf(t.hash1), old(Records(fs.bytes)), ring, BucketOf(t.hash1), Records(fs.bytes), ring')
      ensures Entries(Records(fs.bytes), ring') == AL.Put(old(Entries(Records(fs.bytes), ring)), t, v)
      ensures Count(fs.bytes) == old(Count(fs.bytes) + Appends(Entries(Records(fs.bytes), ring), t))
      ensures ring' == if ring == [] then [t.hash1 % 8191]
                       else if AL.Get(old(Entries(Records(fs.bytes), ring)), t).Some? then ring
                       else ring + [old(Count(fs.bytes))]
    {
      var b := BucketOf(t.hash1);
      ghost var f, recs := FileOf(t.hash1), Records(fs.bytes);
      EmptyIffNoRing(f, recs, ring, b);
      var left, right, h1, h2 := ReadWords(fs, b);
      if IsFileEntryEmpty(left, right) {
        FillHeadAt(fs, b, t, v);
        FillHeadOK(f, recs, b, t, v);
        return [b];
      }
      BucketWalkable(f, recs, ring, b);
      ghost var k;
      var hit, cur;
      hit, cur, left, right, k := FindEntry(fs, t, b, left, right, h1, h2, ring);
      if hit {
        fs.WriteBlock(v, cur, Value);
        PutFound(f, recs, ring, b, k, v);
        ring' := ring;
      } else {
        AppendAt(fs, b, left, t, v);
        PutAbsent(f, recs, ring, b, t, v);
        ring' := ring + [|recs|];
      }
    }

    static method DeleteEntry(fs: FStream, t: Triple, ghost ring: seq<nat>) returns (r: bool, ghost ring': seq<nat>)
      requires Aligned(fs.bytes) && FILE_TABLE_LEN <= Count(fs.bytes) <= MAX_RECORDS
      requires BucketOK(FileOf(t.hash1), Records(fs.bytes), ring, BucketOf(t.hash1))
      modifies fs
      ensures |fs.bytes| == old(|fs.bytes|)
      ensures r <==> AL.Get(old(Entries(Records(fs.bytes), ring)), t).Some?
      ensures Change(FileOf(t.hash1), old(Records(fs.bytes)), ring, BucketOf(t.hash1), Records(fs.bytes), ring')
      ensures Entries(Records(fs.bytes), ring') == AL.Delete(old(Entries(Records(fs.bytes), ring)), t)
      ensures !r ==> ring' == ring
      ensures r ==> exists k: nat :: k < |ring| && old(Records(fs.bytes))[ring[k]].Id() == t && ring' == Without(ring, k)
    {
      var b := BucketOf(t.hash1);
      ghost var f, recs := FileOf(t.hash1), Records(fs.bytes);
      EmptyIffNoRing(f, recs, ring, b);
      var left, right, h1, h2 := ReadWords(fs, b);
      if IsFileEntryEmpty(left, right) {
        DeleteAbsent(f, recs, ring, b, t);
        return false, ring;
      }
      BucketWalkable(f, recs, ring, b);
      ghost var k;
      var cur;
      r, cur, left, right, k := FindEntry(fs, t, b, left, right, h1, h2, ring);
      if !r {
        DeleteAbsent(f, recs, ring, b, t);
        ring' := ring;
      } else if cur != b {
        UnlinkAt(fs, cur, left, right);
        DeleteInner(f, recs, ring, b, k);
        ring' := RemoveAt(ring, k);
      } else if left == right && left == b {
        fs.Seek(GetSeekVal(b));
        KillAt(fs, b);
        DeleteLone(f, recs, ring, b);
        ring' := [];
      } else if right == MAX_UINT64 {
        assert false;
      } else {
        ghost var third := Next(ring, 1);
        assert Hooked(recs, ring, 1);
        PullUpAt(fs, b, right, third);
        DeleteHead(f, recs, ring, b);
        ring' := Pulled(ring);
      }
    }

    /** `close`: the stream content is what the file holds; bucket b now carries `ring` and the disk `contents`. */
    method Close(fs: FStream, f: nat, ghost b: nat, ghost ring: seq<nat>, ghost contents: map<Triple, Block>)
      requires f in disk.rings && b < |disk.rings[f]|
      modifies disk
      ensures disk.Img() == Rewritten(old(disk.Img()), f, fs.bytes, b, ring, contents)
      ensures disk.log == old(disk.log)
    {
      disk.files := disk.files[f := fs.bytes];
      disk.rings := disk.rings[f := disk.rings[f][b := ring]];
      disk.contents := contents;
    }

    static method BlankHeads() returns (fs: FStream)
      ensures fresh(fs) && Aligned(fs.bytes)
      ensures Records(fs.bytes) == seq(FILE_TABLE_LEN, _ => Blank())
    {
      fs := new FStream([]);
      for i := 0 to FILE_TABLE_LEN
        invariant fresh(fs) && Aligned(fs.bytes) && fs.pos == |fs.bytes|
        invariant Records(fs.bytes) == seq(i, _ => Blank())
      {
        fs.AppendEntry(Blank());
      }
    }

    /** Creates file f with FILE_TABLE_LEN blank bucket heads. */
    method CreateFile(f: nat)
      requires Valid() && f < HASH_TABLE_LEN && !fileExists[f]
      modifies this, disk
      ensures Valid() && fileExists[f]
      ensures disk.files.Keys == old(disk.files).Keys + {f}
      ensures Records(disk.files[f]) == seq(FILE_TABLE_LEN, _ => Blank())
      ensures |disk.files[f]| == 544 * 8191
      ensures var zeros := seq(256, _ => 0);
              forall s :: 0 <= s < 8191 ==>
                Records(disk.files[f])[s] == Record(0xFFFF_FFFF_FFFF_FFFF, 0xFFFF_FFFF_FFFF_FFFF, 0xFFFF_FFFF_FFFF_FFFF,
                                                    0xFFFF_FFFF_FFFF_FFFF, zeros, zeros)
      ensures disk.log == old(disk.log)
      ensures SameLists(old(disk.Img()), disk.Img())
      ensures OnlyFileGrew(old(disk.Img()), disk.Img(), f, 0)
      ensures disk.contents == old(disk.contents)
    {
      hide FilesValid, Holds, SameLists, OnlyFileGrew;
      fileExists := fileExists[f := true];
      var fs := BlankHeads();
      NewFileOK(disk.Img(), f, fs.bytes);
      disk.files := disk.files[f := fs.bytes];
      disk.rings := disk.rings[f := seq(FILE_TABLE_LEN, _ => [])];
    }

    /** The part of `write_to_db` behind the creation of the file. */
    method WriteExisting(t: Triple, v: Block)
      requires Valid() && disk.Room(t.hash1) && fileExists[FileOf(t.hash1)]
      modifies disk
      ensures Valid() && disk.log == old(disk.log)
      ensures Performed(old(disk.Img()), Wrote(t, v), disk.Img())
      ensures disk.files.Keys == old(disk.files.Keys)
    {
      var f, b := FileOf(t.hash1), BucketOf(t.hash1);
      ghost var img := disk.Img();
      assert FileValid(img, f);
      assert BucketOK(f, Records(disk.files[f]), img.rings[f][b], b);
      var fs := new FStream(disk.files[f]);
      ghost var ring' := WriteEntry(fs, t, v, img.rings[f][b]);
      RewrittenOK(img, f, fs.bytes, b, ring', img.contents[t := v]);
      Close(fs, f, b, ring', img.contents[t := v]);
      PutHolds(img, disk.Img(), t, v);
    }

    /** Stores v for t: in place, in an empty bucket head, or in a new entry at the end of the file. */
    method WriteToDb(t: Triple, v: Block)
      requires Valid() && disk.Room(t.hash1)
      modifies this, disk
      ensures Valid()
      ensures disk.contents == old(disk.contents)[t := v]
      ensures ListFor(disk.Img(), t) == AL.Put(old(ListFor(disk.Img(), t)), t, v)
      ensures ElsewhereSame(old(disk.Img()), disk.Img(), FileOf(t.hash1), BucketOf(t.hash1))
      ensures OnlyFileGrew(old(disk.Img()), disk.Img(), FileOf(t.hash1), Appends(old(ListFor(disk.Img(), t)), t))
      ensures forall g: nat :: g != t.hash1 % 1021 ==> Lookup(disk.files, g) == Lookup(old(disk.files), g)
      ensures HeldAt(disk.Img(), t.hash1 % 1021, t.hash1 % 8191, t, v)
      ensures RingStepped(old(disk.Img()), Wrote(t, v), disk.Img())
      ensures disk.files.Keys == old(disk.files.Keys) + {t.hash1 % 1021}
      ensures disk.log == old(disk.log) + [Wrote(t, v)] && Led(old(disk.Now()), disk.Now())
      ensures forall k: nat :: old(disk.HasRoom(k + 1)) ==> disk.HasRoom(k)
    {
      hide FilesValid, Holds, SameLists, ElsewhereSame, OnlyFileGrew;
      if !fileExists[FileOf(t.hash1)] {
        CreateFile(FileOf(t.hash1));
      } else {
        NothingCreated(disk.Img(), FileOf(t.hash1));
      }
      ghost var img := disk.Img();
      WriteExisting(t, v);
      CreatedPerformed(old(disk.Img()), img, Wrote(t, v), disk.Img());
      forall k: nat | old(disk.HasRoom(k + 1)) ensures disk.HasRoom(k) {
        PerformedKeepsRoom(old(disk.Img()), Wrote(t, v), disk.Img(), k);
      }
      OtherFilesUntouched(old(disk.Img()), Wrote(t, v), disk.Img());
      OnDisk(disk.Img(), t);
      disk.Record(Wrote(t, v), old(disk.Now()));
    }

    /** The part of `delete_from_db` behind the check that the file exists. */
    method DeleteExisting(t: Triple) returns (r: bool)
      requires Valid() && fileExists[FileOf(t.hash1)]
      modifies disk
      ensures Valid() && disk.log == old(disk.log)
      ensures r <==> t in old(disk.contents)
      ensures Performed(old(disk.Img()), Erased(t), disk.Img())
      ensures disk.files.Keys == old(disk.files.Keys)
    {
      var f, b := FileOf(t.hash1), BucketOf(t.hash1);
      ghost var img := disk.Img();
      assert AL.Get(ListFor(img, t), t) == Lookup(img.contents, t);
      assert FileValid(img, f);
      assert BucketOK(f, Records(disk.files[f]), img.rings[f][b], b);
      var fs := new FStream(disk.files[f]);
      ghost var ring';
      r, ring' := DeleteEntry(fs, t, img.rings[f][b]);
      RewrittenOK(img, f, fs.bytes, b, ring', img.contents - {t});
      Close(fs, f, b, ring', img.contents - {t});
      DeleteHolds(img, disk.Img(), t);
    }

    /** Removes t; false when it was not stored. */
    method DeleteFromDb(t: Triple) returns (r: bool)
      requires Valid()
      modifies disk
      ensures Valid()
      ensures r <==> t in old(disk.contents)
      ensures disk.contents == old(disk.contents) - {t}
      ensures ListFor(disk.Img(), t) == AL.Delete(old(ListFor(disk.Img(), t)), t)
      ensures ElsewhereSame(old(disk.Img()), disk.Img(), FileOf(t.hash1), BucketOf(t.hash1))
      ensures OnlyFileGrew(old(disk.Img()), disk.Img(), FileOf(t.hash1), 0)
      ensures forall g: nat :: g != t.hash1 % 1021 ==> Lookup(disk.files, g) == Lookup(old(disk.files), g)
      ensures RingStepped(old(disk.Img()), Erased(t), disk.Img())
      ensures disk.files.Keys == old(disk.files.Keys)
      ensures t.hash1 % 1021 in disk.files ==>
                forall s :: 0 <= s < |Records(disk.files[t.hash1 % 1021])| ==>
                  var r := Records(disk.files[t.hash1 % 1021])[s];
                  r.Id() == t ==> r.left == r.right == 0xFFFF_FFFF_FFFF_FFFF
      ensures disk.log == old(disk.log) + [Erased(t)] && Led(old(disk.Now()), disk.Now())
      ensures forall k: nat :: old(disk.HasRoom(k)) ==> disk.HasRoom(k)
    {
      hide FilesValid, Holds, ElsewhereSame, OnlyFileGrew;
      if !fileExists[FileOf(t.hash1)] {
        NothingToErase(disk.Img(), t);
        r := false;
      } else {
        r := DeleteExisting(t);
      }
      forall k: nat | old(disk.HasRoom(k)) ensures disk.HasRoom(k) {
        ErasedKeepsRoom(old(disk.Img()), t, disk.Img(), k);
      }
      OtherFilesUntouched(old(disk.Img()), Erased(t), disk.Img());
      if t.hash1 % 1021 in disk.files {
        forall s | 0 <= s < |Records(disk.files[t.hash1 % 1021])| && Records(disk.files[t.hash1 % 1021])[s].Id() == t
          ensures var r := Records(disk.files[t.hash1 % 1021])[s]; r.left == r.right == 0xFFFF_FFFF_FFFF_FFFF
        {
          NotOnDisk(disk.Img(), t, s);
        }
      }
      disk.Record(Erased(t), old(disk.Now()));
    }

    static method ScanFile(fs: FStream) returns (log: seq<Logged>, entries: nat)
      requires Aligned(fs.bytes) && fs.pos == 0
      modifies fs`pos
      ensures entries == Count(fs.bytes)
      ensures log == Dump(Records(fs.bytes), LiveSlots(Records(fs.bytes), Count(fs.bytes)))
    {
      ghost var recs := Records(fs.bytes);
      log := [];
      var i := 0;
      while fs.pos < |fs.bytes|
        invariant 0 <= i <= |recs| && fs.pos == i * SIZE_OF_ONE_ENTRY
        invariant log == Dump(recs, LiveSlots(recs, i))
        decreases |fs.bytes| - fs.pos
      {
        var left := fs.ReadWord(i, Left);
        var right := fs.ReadWord(i, Right);
        var hash1 := fs.ReadWord(i, Hash1);
        var hash2 := fs.ReadWord(i, Hash2);
        var key := fs.ReadBlock(i, Key);
        var value := fs.ReadBlock(i, Value);
        i := i + 1;
        if IsFileEntryEmpty(left, right) { continue; }
        log := log + [Logged(i - 1, Record(left, right, hash1, hash2, key, value))];
        assert LiveSlots(recs, i) == LiveSlots(recs, i - 1) + [i - 1];
      }
      entries := i;
    }

    /** The dump of file f: every record whose links are not both MAX, with its index, and the number of all records. */
    method ReadDbFile(f: nat) returns (log: seq<Logged>, entries: Option<nat>)
      requires Valid() && f < HASH_TABLE_LEN
      ensures log == if f in disk.files then DumpOf(Records(disk.files[f])) else []
      ensures forall i, j :: 0 <= i < j < |log| ==> log[i].index < log[j].index
      ensures forall i :: 0 <= i < |log| ==>
                && f in disk.files && log[i].index < |Records(disk.files[f])|
                && log[i].record == Records(disk.files[f])[log[i].index]
                && !(log[i].record.left == log[i].record.right == 0xFFFF_FFFF_FFFF_FFFF)
      ensures f in disk.files ==>
                forall s :: 0 <= s < |Records(disk.files[f])| ==>
                  var r := Records(disk.files[f])[s];
                  r.left == r.right == 0xFFFF_FFFF_FFFF_FFFF || exists i :: 0 <= i < |log| && log[i].index == s
      ensures entries == if f in disk.files then Some(|Records(disk.files[f])|) else None
    {
      if !fileExists[f] { return [], None; }
      assert FileValid(disk.Img(), f);
      var fs := new FStream(disk.files[f]);
      var n;
      log, n := ScanFile(fs);
      entries := Some(n);
      DumpInOrder(Records(disk.files[f]));
    }
  }

  datatype Logged = Logged(index: nat, record: Record)

  function Dump(recs: seq<Record>, slots: seq<nat>): (log: seq<Logged>)
    requires InFile(recs, slots)
    ensures |log| == |slots|
    ensures forall i :: 0 <= i < |log| ==> log[i] == Logged(slots[i], recs[slots[i]])
  {
    seq(|slots|, i requires 0 <= i < |slots| => Logged(slots[i], recs[slots[i]]))
  }

  function DumpOf(recs: seq<Record>): seq<Logged> {
    Dump(recs, LiveSlots(recs, |recs|))
  }

  /** The dump goes through the file once, from its start, and skips exactly the records whose links are both MAX. */
  lemma DumpInOrder(recs: seq<Record>)
    ensures var log := DumpOf(recs);
            && (forall i, j :: 0 <= i < j < |log| ==> log[i].index < log[j].index)
            && (forall i :: 0 <= i < |log| ==>
                  && log[i].index < |recs| && log[i].record == recs[log[i].index]
                  && !(log[i].record.left == log[i].record.right == 0xFFFF_FFFF_FFFF_FFFF))
            && forall s :: 0 <= s < |recs| ==>
                 recs[s].left == recs[s].right == 0xFFFF_FFFF_FFFF_FFFF || exists i :: 0 <= i < |log| && log[i].index == s
  {
    var live := LiveSlots(recs, |recs|);
    LiveSlotsAscend(recs, |recs|);
    LiveSlotsExact(recs, |recs|);
    forall i | 0 <= i < |live| ensures !(recs[live[i]].left == recs[live[i]].right == 0xFFFF_FFFF_FFFF_FFFF) {
      assert live[i] in live;
    }
    forall s | 0 <= s < |recs| && !(recs[s].left == recs[s].right == 0xFFFF_FFFF_FFFF_FFFF)
      ensures exists i :: 0 <= i < |DumpOf(recs)| && DumpOf(recs)[i].index == s
    {
      assert s in live;
      var i :| 0 <= i < |live| && live[i] == s;
      assert DumpOf(recs)[i].index == s;
    }
  }

  /** The dump of a file shows, once each, exactly the pairs the store holds in that file. */
  lemma DumpIsContents(img: Image, f: nat)
    requires ImageOK(img) && f in img.files
    ensures var recs := Records(img.files[f]);
            var live := LiveSlots(recs, |recs|);
            && InFile(recs, live) && AL.UniqueIds(Entries(recs, live))
            && forall t: Triple {:trigger AL.Get(Entries(recs, live), t)} ::
                 AL.Get(Entries(recs, live), t) == if FileOf(t.hash1) == f then Lookup(img.contents, t) else None
  {
    assert FileValid(img, f);
    var recs := Records(img.files[f]);
    ScanIsContents(f, recs, img.rings[f]);
    forall t: Triple | FileOf(t.hash1) == f
      ensures AL.Get(Entries(recs, img.rings[f][BucketOf(t.hash1)]), t) == Lookup(img.contents, t)
    {
      assert AL.Get(ListFor(img, t), t) == Lookup(img.contents, t);
    }
  }

  /** The bytes alone determine the mapping: a new process that sees the same files sees the same entries. */
  lemma BytesDetermineContents(img: Image, img': Image)
    requires ImageOK(img) && ImageOK(img') && img.files == img'.files
    ensures img.contents == img'.contents
  {
    forall t: Triple ensures Lookup(img.contents, t) == Lookup(img'.contents, t) {
      var f := FileOf(t.hash1);
      assert AL.Get(ListFor(img, t), t) == Lookup(img.contents, t);
      assert AL.Get(ListFor(img', t), t) == Lookup(img'.contents, t);
      if f in img.files {
        var live := LiveSlots(Records(img.files[f]), Count(img.files[f]));
        DumpIsContents(img, f);
        DumpIsContents(img', f);
        assert AL.Get(Entries(Records(img.files[f]), live), t) == Lookup(img.contents, t);
      }
    }
    assert forall t :: t in img.contents <==> Lookup(img.contents, t).Some?;
    assert forall t :: t in img'.contents <==> Lookup(img'.contents, t).Some?;
  }

  /** The outcome of each operation: a delete fails when its triple is not stored at that time. */
  function Results(m: map<Triple, Block>, ops: seq<StoreOp>): seq<bool> {
    if ops == [] then []
    else
      var op, before := ops[|ops| - 1], ops[..|ops| - 1];
      Results(m, before) + [op.Wrote? || op.id in ContentsAfter(m, before)]
  }

  lemma NoResults(m: map<Triple, Block>)
    ensures Results(m, []) == [] && ContentsAfter(m, []) == m
  {
  }

  lemma OneMoreResult(m: map<Triple, Block>, ops: seq<StoreOp>, op: StoreOp)
    ensures ContentsAfter(m, ops + [op]) == OnContents(ContentsAfter(m, ops), op)
    ensures Results(m, ops + [op]) == Results(m, ops) + [op.Wrote? || op.id in ContentsAfter(m, ops)]
  {
    assert (ops + [op])[..|ops|] == ops;
  }

  /** One call of the database test tool: opens the disk anew and writes or deletes one entry. */
  method RunCommand(disk: Disk, command: StoreOp, ghost k: nat) returns (result: bool)
    requires disk.Valid() && disk.HasRoom(k + 1)
    modifies disk
    ensures disk.Valid() && disk.HasRoom(k)
    ensures disk.log == old(disk.log) + [command] && Led(old(disk.Now()), disk.Now())
    ensures disk.contents == OnContents(old(disk.contents), command)
    ensures result <==> command.Wrote? || command.id in old(disk.contents)
  {
    hide ImageOK, Led;
    var store := new KVStore(disk);
    if command.Wrote? {
      store.WriteToDb(command.id, command.value);
      result := true;
    } else {
      result := store.DeleteFromDb(command.id);
    }
  }

  /** Any sequence of writes and deletes, each by its own process. */
  method RunCommands(disk: Disk, commands: seq<StoreOp>) returns (results: seq<bool>)
    requires disk.Valid() && disk.HasRoom(|commands|)
    modifies disk
    ensures disk.Valid() && disk.log == old(disk.log) + commands && Led(old(disk.Now()), disk.Now())
    ensures results == Results(old(disk.contents), commands)
  {
    hide ImageOK, Led, Disk.HasRoom, OnContents, Results, ContentsAfter;
    results := [];
    NoResults(disk.contents);
    LedNowhere(disk.Now());
    ghost var m := disk.Now();
    for i := 0 to |commands|
      invariant disk.Valid() && disk.HasRoom(|commands| - i)
      invariant disk.log == m.log + commands[..i] && Led(m, disk.Now())
      invariant disk.contents == ContentsAfter(m.img.contents, commands[..i])
      invariant results == Results(m.img.contents, commands[..i])
    {
      ghost var before := disk.Now();
      var result := RunCommand(disk, commands[i], |commands| - i - 1);
      results := results + [result];
      LedOn(m, before, disk.Now());
      assert commands[..i + 1] == commands[..i] + [commands[i]];
      OneMoreResult(m.img.contents, commands[..i], commands[i]);
    }
    assert commands[..|commands|] == commands;
  }

  /** What a walk along the ring relies on. */
  ghost predicate Walkable(recs: seq<Record>, ring: seq<nat>, b: nat) {
    && b < |recs|
    && ring != [] && ring[0] == b
    && (forall i :: 1 <= i < |ring| ==> FILE_TABLE_LEN <= ring[i])
    && InFile(recs, ring)
    && Linked(recs, ring)
  }

  lemma BucketWalkable(f: nat, recs: seq<Record>, ring: seq<nat>, b: nat)
    requires BucketOK(f, recs, ring, b) && ring != []
    ensures Walkable(recs, ring, b)
  {
  }

  lemma FoundAt(f: nat, recs: seq<Record>, ring: seq<nat>, b: nat, k: nat)
    requires BucketOK(f, recs, ring, b) && k < |ring|
    ensures AL.Get(Entries(recs, ring), recs[ring[k]].Id()) == Some(recs[ring[k]].value)
  {
    AL.AtIndex(Entries(recs, ring), k, EmptyString());
  }

  lemma NotFound(f: nat, recs: seq<Record>, ring: seq<nat>, b: nat, t: Triple)
    requires BucketOK(f, recs, ring, b)
    requires forall i :: 0 <= i < |ring| ==> recs[ring[i]].Id() != t
    ensures AL.Get(Entries(recs, ring), t) == None
  {
    AL.WhenAbsent(Entries(recs, ring), t, EmptyString());
  }

  lemma GrewKeepsRoom(img: Image, img': Image, f: nat, n: nat, k: nat)
    requires OnlyFileGrew(img, img', f, n) && FILE_TABLE_LEN + k + n <= MAX_RECORDS
    requires forall g :: g in img.files ==> Count(img.files[g]) + k + n <= MAX_RECORDS
    ensures forall g :: g in img'.files ==> Count(img'.files[g]) + k <= MAX_RECORDS
  {
    forall g | g in img'.files ensures Count(img'.files[g]) + k <= MAX_RECORDS {
      if g == f {
        assert |RecordsOf(img', f)| == Count(img'.files[f]);
      } else {
        assert Lookup(img'.files, g) == Lookup(img.files, g);
      }
    }
  }

  lemma PerformedKeepsRoom(img: Image, op: StoreOp, img': Image, k: nat)
    requires Performed(img, op, img') && FILE_TABLE_LEN + k + 1 <= MAX_RECORDS
    requires forall g :: g in img.files ==> Count(img.files[g]) + k + 1 <= MAX_RECORDS
    ensures forall g :: g in img'.files ==> Count(img'.files[g]) + k <= MAX_RECORDS
  {
    hide FilesValid, Holds, ElsewhereSame, OnlyFileGrew;
    GrewKeepsRoom(img, img', FileOf(op.id.hash1), if op.Wrote? then Appends(ListFor(img, op.id), op.id) else 0, k);
  }

  lemma ErasedKeepsRoom(img: Image, t: Triple, img': Image, k: nat)
    requires Performed(img, Erased(t), img') && FILE_TABLE_LEN + k <= MAX_RECORDS
    requires forall g :: g in img.files ==> Count(img.files[g]) + k <= MAX_RECORDS
    ensures forall g :: g in img'.files ==> Count(img'.files[g]) + k <= MAX_RECORDS
  {
    hide FilesValid, Holds, ElsewhereSame, OnlyFileGrew;
    GrewKeepsRoom(img, img', FileOf(t.hash1), 0, k);
  }

  lemma NothingCreated(img: Image, f: nat)
    requires ImageOK(img)
    ensures SameLists(img, img) && OnlyFileGrew(img, img, f, 0)
  {
  }

  /** Creating the file first does not change what the write does. */
  lemma CreatedPerformed(img: Image, img': Image, op: StoreOp, img'': Image)
    requires ImageOK(img) && ImageOK(img') && img'.contents == img.contents && SameLists(img, img')
    requires OnlyFileGrew(img, img', FileOf(op.id.hash1), 0) && Performed(img', op, img'')
    ensures Performed(img, op, img'')
  {
    var f, b := FileOf(op.id.hash1), BucketOf(op.id.hash1);
    assert ListAt(img', f, b) == ListAt(img, f, b);
    forall g: nat, c: nat | c < FILE_TABLE_LEN && (g != f || c != b)
      ensures ListAt(img'', g, c) == ListAt(img, g, c) && RingAt(img'', g, c) == RingAt(img, g, c)
    {
      assert ListAt(img', g, c) == ListAt(img, g, c);
    }
    SlotsKeptTwice(RecordsOf(img, f), RecordsOf(img', f), RecordsOf(img'', f), 0,
                   if op.Wrote? then Appends(ListFor(img, op.id), op.id) else 0);
  }

  lemma NothingToErase(img: Image, t: Triple)
    requires ImageOK(img) && FileOf(t.hash1) !in img.files
    ensures t !in img.contents && Performed(img, Erased(t), img)
  {
    assert AL.Get(ListFor(img, t), t) == Lookup(img.contents, t);
    assert img.contents - {t} == img.contents;
  }

  // ---------- what each branch does to the association list ----------

  lemma PutFound(f: nat, recs: seq<Record>, ring: seq<nat>, b: nat, k: nat, v: Block)
    requires BucketOK(f, recs, ring, b) && |recs| <= MAX_RECORDS && k < |ring|
    ensures var recs' := SetValue(recs, ring[k], v);
            && Change(f, recs, ring, b, recs', ring)
            && Entries(recs', ring) == AL.Put(Entries(recs, ring), recs[ring[k]].Id(), v)
            && Appends(Entries(recs, ring), recs[ring[k]].Id()) == 0
  {
    SetValueOK(f, recs, ring, b, k, v);
    AL.AtIndex(Entries(recs, ring), k, v);
  }

  lemma PutAbsent(f: nat, recs: seq<Record>, ring: seq<nat>, b: nat, t: Triple, v: Block)
    requires BucketOK(f, recs, ring, b) && FILE_TABLE_LEN <= |recs| < MAX_RECORDS && ring != []
    requires FileOf(t.hash1) == f && BucketOf(t.hash1) == b
    requires forall i :: 0 <= i < |ring| ==> recs[ring[i]].Id() != t
    ensures var recs' := Append(recs, b, ring[|ring| - 1], t, v);
            && Change(f, recs, ring, b, recs', ring + [|recs|])
            && Entries(recs', ring + [|recs|]) == AL.Put(Entries(recs, ring), t, v)
            && Appends(Entries(recs, ring), t) == 1
  {
    AppendOK(f, recs, ring, b, t, v);
    AL.WhenAbsent(Entries(recs, ring), t, v);
  }

  lemma DeleteAbsent(f: nat, recs: seq<Record>, ring: seq<nat>, b: nat, t: Triple)
    requires BucketOK(f, recs, ring, b) && |recs| <= MAX_RECORDS
    requires forall i :: 0 <= i < |ring| ==> recs[ring[i]].Id() != t
    ensures Change(f, recs, ring, b, recs, ring)
    ensures AL.Get(Entries(recs, ring), t) == None
    ensures AL.Delete(Entries(recs, ring), t) == Entries(recs, ring)
  {
    AL.WhenAbsent(Entries(recs, ring), t, EmptyString());
    if ring != [] { assert ring[0] in ring; }
  }

  lemma DeleteInner(f: nat, recs: seq<Record>, ring: seq<nat>, b: nat, k: nat)
    requires BucketOK(f, recs, ring, b) && |recs| <= MAX_RECORDS && k < |ring| && ring[k] != b
    ensures var recs' := Unlink(recs, ring[k], Prev(ring, k), Next(ring, k));
            && Change(f, recs, ring, b, recs', RemoveAt(ring, k))
            && Entries(recs', RemoveAt(ring, k)) == AL.Delete(Entries(recs, ring), recs[ring[k]].Id())
    ensures AL.Get(Entries(recs, ring), recs[ring[k]].Id()).Some?
  {
    UnlinkOK(f, recs, ring, b, k);
    AL.AtIndex(Entries(recs, ring), k, EmptyString());
  }

  lemma DeleteLone(f: nat, recs: seq<Record>, ring: seq<nat>, b: nat)
    requires BucketOK(f, recs, ring, b) && |recs| <= MAX_RECORDS && ring != [] && Next(ring, 0) == b
    ensures Change(f, recs, ring, b, KillHead(recs, b), [])
    ensures Entries(KillHead(recs, b), []) == AL.Delete(Entries(recs, ring), recs[b].Id())
    ensures AL.Get(Entries(recs, ring), recs[b].Id()).Some?
  {
    KillHeadOK(f, recs, ring, b);
    AL.AtIndex(Entries(recs, ring), 0, EmptyString());
  }

  lemma DeleteHead(f: nat, recs: seq<Record>, ring: seq<nat>, b: nat)
    requires BucketOK(f, recs, ring, b) && |recs| <= MAX_RECORDS && |ring| >= 2
    ensures var recs' := PullUp(recs, b, ring[1], Next(ring, 1));
            && Change(f, recs, ring, b, recs', Pulled(ring))
            && Entries(recs', Pulled(ring)) == AL.Delete(Entries(recs, ring), recs[b].Id())
    ensures AL.Get(Entries(recs, ring), recs[b].Id()).Some?
    ensures recs[ring[1]].right == Next(ring, 1)
  {
    assert Hooked(recs, ring, 1);
    PullUpOK(f, recs, ring, b);
    AL.AtIndex(Entries(recs, ring), 0, EmptyString());
  }

  lemma EmptyIffNoRing(f: nat, recs: seq<Record>, ring: seq<nat>, b: nat)
    requires BucketOK(f, recs, ring, b) && |recs| <= MAX_RECORDS
    ensures IsFileEntryEmpty(recs[b].left, recs[b].right) <==> ring == []
  {
    if ring != [] { assert Hooked(recs, ring, 0); }
  }
}
