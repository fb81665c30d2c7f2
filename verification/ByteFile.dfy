/** The byte image of a database file: an array of 544-byte records behind a read/write position. */
module ByteFile {
  import opened Types

  /** One entry: leftIdx, rightIdx, hash1, hash2 (8 bytes each), then 256 bytes of key and 256 of value. */
  const SIZE_OF_ONE_ENTRY: int := 544

  /** Most records a file of fewer than 2^63 bytes can hold; file offsets are signed 64-bit. */
  const MAX_RECORDS: int := 0x8000_0000_0000_0000 / SIZE_OF_ONE_ENTRY

  predicate IsFileEntryEmpty(left: U64, right: U64) {
    left == right && left == MAX_UINT64
  }

  datatype Record = Record(left: U64, right: U64, hash1: U64, hash2: U64, key: Block, value: Block) {
    function Id(): Triple { Triple(hash1, hash2, key) }

    /** Both links are the MAX sentinel: a bucket head without entries, or a dead overflow slot. */
    predicate IsEmpty() { IsFileEntryEmpty(left, right) }
  }

  /** Multiplication as the `uint64_t` code does it. */
  function GetSeekVal(idx: U64): (p: U64)
    ensures idx < MAX_RECORDS ==> p == idx * SIZE_OF_ONE_ENTRY
  {
    idx * SIZE_OF_ONE_ENTRY % TWO64
  }

  // ---------- little-endian words ----------

  function Encode(v: nat, n: nat): (s: seq<Byte>)
    ensures |s| == n
  {
    if n == 0 then [] else [v % 256] + Encode(v / 256, n - 1)
  }

  function Decode(s: seq<Byte>): (v: nat)
  {
    if s == [] then 0 else s[0] + 256 * Decode(s[1..])
  }

  function Pow256(n: nat): (p: nat)
    ensures p > 0
  {
    if n == 0 then 1 else 256 * Pow256(n - 1)
  }

  lemma {:induction false} DecodeBound(s: seq<Byte>)
    ensures Decode(s) < Pow256(|s|)
  {
    if s != [] { DecodeBound(s[1..]); }
  }

  lemma {:induction false} DecodeEncode(v: nat, n: nat)
    requires v < Pow256(n)
    ensures Decode(Encode(v, n)) == v
  {
    if n > 0 {
      assert Encode(v, n)[1..] == Encode(v / 256, n - 1);
      DecodeEncode(v / 256, n - 1);
    }
  }

  lemma Pow256Eight()
    ensures Pow256(8) == TWO64
  {
    assert Pow256(4) == 0x1_0000_0000;
    assert Pow256(6) == 0x1_0000_0000_0000;
  }

  function EncodeWord(v: U64): (s: seq<Byte>)
    ensures |s| == 8
  {
    Encode(v, 8)
  }

  function WordAt(bytes: seq<Byte>, p: nat): U64
    requires p + 8 <= |bytes|
  {
    DecodeBound(bytes[p..p + 8]);
    Pow256Eight();
    Decode(bytes[p..p + 8])
  }

  function BlockAt(bytes: seq<Byte>, p: nat): Block
    requires p + KV_STR_LEN <= |bytes|
  {
    bytes[p..p + KV_STR_LEN]
  }

  // ---------- the record array ----------

  ghost predicate Aligned(bytes: seq<Byte>) {
    |bytes| % SIZE_OF_ONE_ENTRY == 0
  }

  function Count(bytes: seq<Byte>): nat {
    |bytes| / SIZE_OF_ONE_ENTRY
  }

  type EntryBytes = s: seq<Byte> | |s| == SIZE_OF_ONE_ENTRY witness seq(SIZE_OF_ONE_ENTRY, _ => 0)

  function DecodeRecord(s: EntryBytes): Record {
    Record(WordAt(s, 0), WordAt(s, 8), WordAt(s, 16), WordAt(s, 24), BlockAt(s, 32), BlockAt(s, 288))
  }

  function Slot(bytes: seq<Byte>, i: nat): EntryBytes
    requires i < Count(bytes)
  {
    bytes[i * SIZE_OF_ONE_ENTRY..i * SIZE_OF_ONE_ENTRY + SIZE_OF_ONE_ENTRY]
  }

  /** recs is the file read as an array of records. */
  ghost predicate Represents(bytes: seq<Byte>, recs: seq<Record>) {
    && |recs| == Count(bytes)
    && forall i {:trigger Slot(bytes, i)} :: 0 <= i < |recs| ==> recs[i] == DecodeRecord(Slot(bytes, i))
  }

  /** The file as the array of its records. */
  ghost function Records(bytes: seq<Byte>): (recs: seq<Record>)
    ensures |recs| == Count(bytes)
    ensures Represents(bytes, recs)
  {
    assert Represents(bytes, seq(Count(bytes), i requires 0 <= i < Count(bytes) => DecodeRecord(Slot(bytes, i))));
    var recs :| Represents(bytes, recs);
    recs
  }

  /** What `fs.write` does at position p, at or before the end of the file. */
  function Overwrite(bytes: seq<Byte>, p: nat, data: seq<Byte>): (r: seq<Byte>)
    requires p <= |bytes|
    ensures |r| == if p + |data| <= |bytes| then |bytes| else p + |data|
  {
    bytes[..p] + data + if p + |data| <= |bytes| then bytes[p + |data|..] else []
  }

  lemma OverwriteKeeps(bytes: seq<Byte>, p: nat, data: seq<Byte>, a: nat, b: nat)
    requires p + |data| <= |bytes| && a <= b <= |bytes|
    requires b <= p || p + |data| <= a
    ensures Overwrite(bytes, p, data)[a..b] == bytes[a..b]
  {
    var r := Overwrite(bytes, p, data);
    forall i | a <= i < b ensures r[i] == bytes[i] {}
  }

  lemma OverwriteStores(bytes: seq<Byte>, p: nat, data: seq<Byte>)
    requires p + |data| <= |bytes|
    ensures Overwrite(bytes, p, data)[p..p + |data|] == data
  {
  }

  lemma SlotByte(bytes: seq<Byte>, i: nat, k: nat)
    requires i < Count(bytes) && k < SIZE_OF_ONE_ENTRY
    ensures i * SIZE_OF_ONE_ENTRY + SIZE_OF_ONE_ENTRY <= |bytes|
    ensures Slot(bytes, i)[k] == bytes[i * SIZE_OF_ONE_ENTRY + k]
  {
  }

  /** Reading part of the file inside record i is reading part of record i. */
  lemma SlotPart(bytes: seq<Byte>, i: nat, a: nat, b: nat)
    requires i < Count(bytes) && a <= b <= SIZE_OF_ONE_ENTRY
    ensures i * SIZE_OF_ONE_ENTRY + b <= |bytes|
    ensures bytes[i * SIZE_OF_ONE_ENTRY + a..i * SIZE_OF_ONE_ENTRY + b] == Slot(bytes, i)[a..b]
  {
    var p := i * SIZE_OF_ONE_ENTRY;
    SlotByte(bytes, i, 0);
    forall k | 0 <= k < b - a ensures bytes[p + a..p + b][k] == Slot(bytes, i)[a..b][k] {
      SlotByte(bytes, i, a + k);
    }
  }

  /** Writing inside record i overwrites part of that slot and leaves every other slot alone. */
  lemma OverwriteSlots(bytes: seq<Byte>, i: nat, off: nat, data: seq<Byte>)
    requires i < Count(bytes) && off + |data| <= SIZE_OF_ONE_ENTRY
    ensures var r := Overwrite(bytes, i * SIZE_OF_ONE_ENTRY + off, data);
            && |r| == |bytes|
            && Slot(r, i) == Overwrite(Slot(bytes, i), off, data)
            && forall j :: 0 <= j < Count(bytes) && j != i ==> Slot(r, j) == Slot(bytes, j)
  {
    var p := i * SIZE_OF_ONE_ENTRY + off;
    var r := Overwrite(bytes, p, data);
    forall k | 0 <= k < SIZE_OF_ONE_ENTRY
      ensures Slot(r, i)[k] == Overwrite(Slot(bytes, i), off, data)[k]
    {
      SlotByte(r, i, k);
      SlotByte(bytes, i, k);
    }
    forall j | 0 <= j < Count(bytes) && j != i
      ensures Slot(r, j) == Slot(bytes, j)
    {
      OverwriteKeeps(bytes, p, data, j * SIZE_OF_ONE_ENTRY, j * SIZE_OF_ONE_ENTRY + SIZE_OF_ONE_ENTRY);
    }
  }

  lemma WordRoundTrip(v: U64)
    ensures Decode(EncodeWord(v)) == v
  {
    Pow256Eight();
    DecodeEncode(v, 8);
  }

  lemma WordAtOverwrite(s: EntryBytes, p: nat, data: seq<Byte>, q: nat)
    requires p + |data| <= SIZE_OF_ONE_ENTRY && q + 8 <= SIZE_OF_ONE_ENTRY
    ensures q + 8 <= p || p + |data| <= q ==> WordAt(Overwrite(s, p, data), q) == WordAt(s, q)
    ensures forall v: U64 :: p == q && data == EncodeWord(v) ==> WordAt(Overwrite(s, p, data), q) == v
  {
    if q + 8 <= p || p + |data| <= q { OverwriteKeeps(s, p, data, q, q + 8); }
    forall v: U64 | p == q && data == EncodeWord(v)
      ensures WordAt(Overwrite(s, p, data), q) == v
    {
      OverwriteStores(s, p, data);
      WordRoundTrip(v);
    }
  }

  lemma BlockAtOverwrite(s: EntryBytes, p: nat, data: seq<Byte>, q: nat)
    requires p + |data| <= SIZE_OF_ONE_ENTRY && q + KV_STR_LEN <= SIZE_OF_ONE_ENTRY
    ensures q + KV_STR_LEN <= p || p + |data| <= q ==> BlockAt(Overwrite(s, p, data), q) == BlockAt(s, q)
    ensures p == q && |data| == KV_STR_LEN ==> BlockAt(Overwrite(s, p, data), q) == data
  {
    if q + KV_STR_LEN <= p || p + |data| <= q { OverwriteKeeps(s, p, data, q, q + KV_STR_LEN); }
  }

  /** Where the six fields of one entry start. */
  datatype Field = Left | Right | Hash1 | Hash2 | Key | Value {
    function Offset(): nat {
      match this
      case Left => 0
      case Right => 8
      case Hash1 => 16
      case Hash2 => 24
      case Key => 32
      case Value => 288
    }
  }

  /** A word field; the two buffers are not words. */
  function WordOf(r: Record, f: Field): U64
    requires !f.Key? && !f.Value?
  {
    match f
    case Left => r.left
    case Right => r.right
    case Hash1 => r.hash1
    case Hash2 => r.hash2
  }

  function BlockOf(r: Record, f: Field): Block
    requires f.Key? || f.Value?
  {
    match f
    case Key => r.key
    case Value => r.value
  }

  function SetWord(r: Record, f: Field, v: U64): Record
    requires !f.Key? && !f.Value?
  {
    match f
    case Left => r.(left := v)
    case Right => r.(right := v)
    case Hash1 => r.(hash1 := v)
    case Hash2 => r.(hash2 := v)
  }

  function SetBlock(r: Record, f: Field, b: Block): Record
    requires f.Key? || f.Value?
  {
    match f
    case Key => r.(key := b)
    case Value => r.(value := b)
  }

  lemma DecodeOverwrittenWord(s: EntryBytes, f: Field, v: U64)
    requires !f.Key? && !f.Value?
    ensures DecodeRecord(Overwrite(s, f.Offset(), EncodeWord(v))) == SetWord(DecodeRecord(s), f, v)
  {
    var p, data := f.Offset(), EncodeWord(v);
    WordAtOverwrite(s, p, data, 0);
    WordAtOverwrite(s, p, data, 8);
    WordAtOverwrite(s, p, data, 16);
    WordAtOverwrite(s, p, data, 24);
    BlockAtOverwrite(s, p, data, 32);
    BlockAtOverwrite(s, p, data, 288);
  }

  lemma DecodeOverwrittenBlock(s: EntryBytes, f: Field, b: Block)
    requires f.Key? || f.Value?
    ensures DecodeRecord(Overwrite(s, f.Offset(), b)) == SetBlock(DecodeRecord(s), f, b)
  {
    var p := f.Offset();
    WordAtOverwrite(s, p, b, 0);
    WordAtOverwrite(s, p, b, 8);
    WordAtOverwrite(s, p, b, 16);
    WordAtOverwrite(s, p, b, 24);
    BlockAtOverwrite(s, p, b, 32);
    BlockAtOverwrite(s, p, b, 288);
  }

  lemma SameSlots(bytes: seq<Byte>, bytes': seq<Byte>, i: nat)
    requires |bytes'| == |bytes| && i < Count(bytes)
    requires forall j :: 0 <= j < Count(bytes) && j != i ==> Slot(bytes', j) == Slot(bytes, j)
    ensures Records(bytes') == Records(bytes)[i := DecodeRecord(Slot(bytes', i))]
  {
    forall j | 0 <= j < Count(bytes) && j != i ensures Records(bytes')[j] == Records(bytes)[j] {
      assert Slot(bytes', j) == Slot(bytes, j);
    }
  }

  /** Writing a word over a word field of record i changes that field of that record and nothing else. */
  lemma OverwriteWord(bytes: seq<Byte>, i: nat, f: Field, v: U64)
    requires i < Count(bytes) && !f.Key? && !f.Value?
    ensures var r := Overwrite(bytes, i * SIZE_OF_ONE_ENTRY + f.Offset(), EncodeWord(v));
            |r| == |bytes| && Records(r) == Records(bytes)[i := SetWord(Records(bytes)[i], f, v)]
  {
    OverwriteSlots(bytes, i, f.Offset(), EncodeWord(v));
    DecodeOverwrittenWord(Slot(bytes, i), f, v);
    SameSlots(bytes, Overwrite(bytes, i * SIZE_OF_ONE_ENTRY + f.Offset(), EncodeWord(v)), i);
  }

  lemma OverwriteBlock(bytes: seq<Byte>, i: nat, f: Field, b: Block)
    requires i < Count(bytes) && (f.Key? || f.Value?)
    ensures var r := Overwrite(bytes, i * SIZE_OF_ONE_ENTRY + f.Offset(), b);
            |r| == |bytes| && Records(r) == Records(bytes)[i := SetBlock(Records(bytes)[i], f, b)]
  {
    OverwriteSlots(bytes, i, f.Offset(), b);
    DecodeOverwrittenBlock(Slot(bytes, i), f, b);
    SameSlots(bytes, Overwrite(bytes, i * SIZE_OF_ONE_ENTRY + f.Offset(), b), i);
  }

  function EncodeRecord(r: Record): (s: EntryBytes)
  {
    EncodeWord(r.left) + EncodeWord(r.right) + EncodeWord(r.hash1) + EncodeWord(r.hash2) + r.key + r.value
  }

  lemma RecordRoundTrip(r: Record)
    ensures DecodeRecord(EncodeRecord(r)) == r
  {
    var s := EncodeRecord(r);
    assert s[0..8] == EncodeWord(r.left);
    assert s[8..16] == EncodeWord(r.right);
    assert s[16..24] == EncodeWord(r.hash1);
    assert s[24..32] == EncodeWord(r.hash2);
    assert s[32..288] == r.key;
    assert s[288..544] == r.value;
    WordRoundTrip(r.left);
    WordRoundTrip(r.right);
    WordRoundTrip(r.hash1);
    WordRoundTrip(r.hash2);
  }

  /** A record written behind the last one becomes the next element of the record array. */
  lemma AppendRecord(bytes: seq<Byte>, rec: Record)
    requires Aligned(bytes)
    ensures Aligned(bytes + EncodeRecord(rec))
    ensures Records(bytes + EncodeRecord(rec)) == Records(bytes) + [rec]
  {
    var r, n := bytes + EncodeRecord(rec), Count(bytes);
    assert Slot(r, n) == EncodeRecord(rec);
    RecordRoundTrip(rec);
    forall j | 0 <= j < n ensures Records(r)[j] == Records(bytes)[j] {
      assert Slot(r, j) == Slot(bytes, j);
    }
  }

  /** A word on the disk: eight bytes, the least significant first. */
  lemma WordBytes(bytes: seq<Byte>, p: nat)
    requires p + 8 <= |bytes|
    ensures WordAt(bytes, p) ==
      bytes[p] as int + 0x100 * (bytes[p + 1] as int) + 0x1_0000 * (bytes[p + 2] as int) +
      0x100_0000 * (bytes[p + 3] as int) + 0x1_0000_0000 * (bytes[p + 4] as int) +
      0x100_0000_0000 * (bytes[p + 5] as int) + 0x1_0000_0000_0000 * (bytes[p + 6] as int) +
      0x100_0000_0000_0000 * (bytes[p + 7] as int)
  {
    var s := bytes[p..p + 8];
    assert Decode(s[8..]) == 0;
    DecodeFrom(s, 7);
    DecodeFrom(s, 6);
    DecodeFrom(s, 5);
    DecodeFrom(s, 4);
    DecodeFrom(s, 3);
    DecodeFrom(s, 2);
    DecodeFrom(s, 1);
    DecodeFrom(s, 0);
    assert s[0..] == s;
  }

  lemma DecodeFrom(s: seq<Byte>, k: nat)
    requires k < |s|
    ensures Decode(s[k..]) == s[k] + 256 * Decode(s[k + 1..])
  {
    assert s[k..][1..] == s[k + 1..];
  }

  /** Room is refused only to a record that would end behind byte 2^63. */
  lemma RoomIsTight()
    ensures MAX_RECORDS * 544 <= 0x8000_0000_0000_0000 < (MAX_RECORDS + 1) * 544
  {
  }

  /** The format of a file: record i is bytes 544 i to 544 i + 544, four words and two buffers of 256 bytes. */
  lemma RecordLayout(bytes: seq<Byte>, i: nat)
    requires i < |bytes| / 544
    ensures |Records(bytes)| == |bytes| / 544 && 544 * i + 544 <= |bytes|
    ensures var r, p := Records(bytes)[i], 544 * i;
            && r.left == WordAt(bytes, p) && r.right == WordAt(bytes, p + 8)
            && r.hash1 == WordAt(bytes, p + 16) && r.hash2 == WordAt(bytes, p + 24)
            && r.key == bytes[p + 32..p + 288] && r.value == bytes[p + 288..p + 544]
  {
    assert Represents(bytes, Records(bytes));
    var p := 544 * i;
    assert Records(bytes)[i] == DecodeRecord(Slot(bytes, i));
    SlotPart(bytes, i, 0, 8);
    SlotPart(bytes, i, 8, 16);
    SlotPart(bytes, i, 16, 24);
    SlotPart(bytes, i, 24, 32);
    SlotPart(bytes, i, 32, 288);
    SlotPart(bytes, i, 288, 544);
  }

  // ---------- the stream ----------

  /** `std::fstream` opened on one database file: its content and the shared read/write position. */
  class FStream {
    var bytes: seq<Byte>
    var pos: nat

    constructor (content: seq<Byte>)
      ensures bytes == content && pos == 0
    {
      bytes := content;
      pos := 0;
    }

    method Seek(p: nat)
      modifies `pos
      ensures pos == p
    {
      pos := p;
    }

    /** `seekg(d, std::ios::cur)` */
    method SeekCur(d: int)
      requires pos + d >= 0
      modifies `pos
      ensures pos == old(pos) + d
    {
      pos := pos + d;
    }

    method SeekEnd()
      modifies `pos
      ensures pos == |bytes|
    {
      pos := |bytes|;
    }

    /** Reads eight bytes; when they are field f of record i, the result is that field. */
    method ReadWord(ghost i: nat, ghost f: Field) returns (v: U64)
      requires i < Count(bytes) && pos == i * SIZE_OF_ONE_ENTRY + f.Offset() && !f.Key? && !f.Value?
      modifies `pos
      ensures pos == old(pos) + 8
      ensures v == WordOf(Records(bytes)[i], f)
    {
      SlotPart(bytes, i, f.Offset(), f.Offset() + 8);
      v := WordAt(bytes, pos);
      pos := pos + 8;
    }

    method ReadBlock(ghost i: nat, ghost f: Field) returns (b: Block)
      requires i < Count(bytes) && pos == i * SIZE_OF_ONE_ENTRY + f.Offset() && (f.Key? || f.Value?)
      modifies `pos
      ensures pos == old(pos) + KV_STR_LEN
      ensures b == BlockOf(Records(bytes)[i], f)
    {
      SlotPart(bytes, i, f.Offset(), f.Offset() + KV_STR_LEN);
      b := BlockAt(bytes, pos);
      pos := pos + KV_STR_LEN;
    }

    /** `fs.write` of raw bytes, extending the file when it runs past the end. */
    method Write(data: seq<Byte>)
      requires pos <= |bytes|
      modifies this
      ensures bytes == Overwrite(old(bytes), old(pos), data) && pos == old(pos) + |data|
    {
      bytes := Overwrite(bytes, pos, data);
      pos := pos + |data|;
    }

    /** `fs.write` of a word over field f of record i. */
    method WriteWord(v: U64, ghost i: nat, ghost f: Field)
      requires i < Count(bytes) && pos == i * SIZE_OF_ONE_ENTRY + f.Offset() && !f.Key? && !f.Value?
      modifies this
      ensures pos == old(pos) + 8 && |bytes| == old(|bytes|)
      ensures Records(bytes) == old(Records(bytes))[i := SetWord(old(Records(bytes))[i], f, v)]
    {
      OverwriteWord(bytes, i, f, v);
      Write(EncodeWord(v));
    }

    method WriteBlock(b: Block, ghost i: nat, ghost f: Field)
      requires i < Count(bytes) && pos == i * SIZE_OF_ONE_ENTRY + f.Offset() && (f.Key? || f.Value?)
      modifies this
      ensures pos == old(pos) + KV_STR_LEN && |bytes| == old(|bytes|)
      ensures Records(bytes) == old(Records(bytes))[i := SetBlock(old(Records(bytes))[i], f, b)]
    {
      OverwriteBlock(bytes, i, f, b);
      Write(b);
    }

    /** The six writes that lay down one whole entry behind the last one. */
    method AppendEntry(r: Record)
      requires Aligned(bytes) && pos == |bytes|
      modifies this
      ensures Aligned(bytes) && pos == |bytes| == old(|bytes|) + SIZE_OF_ONE_ENTRY
      ensures Records(bytes) == old(Records(bytes)) + [r]
    {
      ghost var before := bytes;
      Write(EncodeWord(r.left));
      Write(EncodeWord(r.right));
      Write(EncodeWord(r.hash1));
      Write(EncodeWord(r.hash2));
      Write(r.key);
      Write(r.value);
      assert bytes == before + EncodeRecord(r);
      AppendRecord(before, r);
    }
  }
}
