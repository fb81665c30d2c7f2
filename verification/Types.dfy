/** Value types shared by every component of the key-value engine. */
module Types {

  const TWO64: int := 0x1_0000_0000_0000_0000
  const MAX_UINT64: int := 0xFFFF_FFFF_FFFF_FFFF

  /** Length of the key and of the value buffer of a message. */
  const KV_STR_LEN: int := 256

  type Byte = b: int | 0 <= b < 256

  /** `uint64_t`: arithmetic that may leave the range is reduced modulo TWO64 where it is written. */
  type U64 = x: int | 0 <= x < TWO64 witness 0

  /** A `char[256]` buffer. */
  type Block = s: seq<Byte> | |s| == KV_STR_LEN witness seq(KV_STR_LEN, _ => 0)

  /** What the cache and the store compare entries by: both hashes and the key bytes. */
  datatype Triple = Triple(hash1: U64, hash2: U64, key: Block)

  datatype Option<+T> = None | Some(value: T)

  function Lookup<K, V>(m: map<K, V>, k: K): (r: Option<V>)
    ensures r.Some? <==> k in m
    ensures r.Some? ==> r.value == m[k]
  {
    if k in m then Some(m[k]) else None
  }

  ghost predicate NoDup<T>(s: seq<T>) {
    forall i, j :: 0 <= i < j < |s| ==> s[i] != s[j]
  }

  function RemoveAt<T>(s: seq<T>, k: nat): (r: seq<T>)
    requires k < |s|
    ensures |r| == |s| - 1
    ensures forall i :: 0 <= i < k ==> r[i] == s[i]
    ensures forall i :: k <= i < |r| ==> r[i] == s[i + 1]
  {
    s[..k] + s[k + 1..]
  }

  lemma RemoveAtNext<T>(s: seq<T>, k: nat)
    requires 1 <= k < |s|
    ensures RemoveAt(s, k) == [s[0]] + RemoveAt(s[1..], k - 1)
  {
    assert s[..k] == [s[0]] + s[1..][..k - 1];
    assert s[k + 1..] == s[1..][k..];
  }
}
