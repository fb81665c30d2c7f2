/** Requests as fixed-size messages, and the two polynomial hashes of a key. */
module Message {
  import opened Types
  import opened Modular
  import opened Weights

  ghost predicate IsRandomNums(w: nat -> nat) {
    forall i: nat {:trigger RandomNum(i)} :: w(i) == RandomNum(i)
  }

  /** The table as a function value. */
  ghost function RandomNums(): (w: nat -> nat)
    ensures IsRandomNums(w)
  {
    assert IsRandomNums(i => RandomNum(i));
    var w: nat -> nat :| IsRandomNums(w);
    w
  }

  function Ones(): nat -> nat {
    _ => 1
  }

  // ---------- the hash as a polynomial ----------

  function Pow33(k: nat): nat {
    if k == 0 then 1 else 33 * Pow33(k - 1)
  }

  /** The sum over i <= j < n of 33^(n-1-j) * w[j] * p[j]. */
  function Polynomial(w: nat -> nat, p: seq<Byte>, n: nat, i: nat): nat
    requires i <= n <= |p|
    decreases n - i
  {
    if i == n then 0 else Pow33(n - 1 - i) * (w(i) * p[i]) + Polynomial(w, p, n, i + 1)
  }

  /** One turn of the loop, in 64 bits. */
  function Turn(h: U64, c: nat): U64 {
    (33 * h + c) % TWO64
  }

  /** n turns of the loop. */
  function Turns(w: nat -> nat, p: seq<Byte>, n: nat): U64
    requires n <= |p|
  {
    if n == 0 then 0 else Turn(Turns(w, p, n - 1), w(n - 1) * p[n - 1])
  }

  function Hash1(key: Block): U64 { Turns(Ones(), key, KV_STR_LEN) }

  ghost function Hash2(key: Block): U64 { Turns(RandomNums(), key, KV_STR_LEN) }

  ghost function TripleOf(key: Block): Triple {
    Triple(Hash1(key), Hash2(key), key)
  }

  lemma {:induction false} PolynomialStep(w: nat -> nat, p: seq<Byte>, n: nat, i: nat)
    requires i <= n < |p|
    ensures Polynomial(w, p, n + 1, i) == 33 * Polynomial(w, p, n, i) + w(n) * p[n]
    decreases n - i
  {
    if i == n {
      assert Polynomial(w, p, n + 1, n + 1) == 0;
      assert Pow33(0) == 1;
    } else {
      PolynomialStep(w, p, n, i + 1);
      var x, c := Pow33(n - 1 - i), w(i) * p[i];
      assert Pow33(n - i) * c == 33 * (x * c) by { assert Pow33(n - i) == 33 * x; }
    }
  }

  lemma TurnMod(x: nat, c: nat)
    ensures Turn(x % TWO64, c) == (33 * x + c) % TWO64
  {
    var q, r := x / TWO64, x % TWO64;
    assert 33 * x + c == TWO64 * (33 * q) + (33 * r + c);
    AddMultiple(TWO64, 33 * q, 33 * r + c);
  }

  lemma PolynomialZero(w: nat -> nat, p: seq<Byte>)
    ensures Polynomial(w, p, 0, 0) == 0
  {
  }

  lemma TurnOf(t: U64, x: nat, c: nat, y: nat)
    requires t == x % TWO64 && y == 33 * x + c
    ensures Turn(t, c) == y % TWO64
  {
    TurnMod(x, c);
  }

  /** The wrapping loop computes the polynomial modulo 2^64. */
  lemma {:induction false} TurnsIsPolynomial(w: nat -> nat, p: seq<Byte>, n: nat)
    requires n <= |p|
    ensures Turns(w, p, n) == Polynomial(w, p, n, 0) % TWO64
  {
    hide Turn, Turns, Polynomial;
    if n == 0 {
      TurnsZero(w, p);
      PolynomialZero(w, p);
    } else {
      TurnsIsPolynomial(w, p, n - 1);
      TurnsNext(w, p, n - 1);
      PolynomialStep(w, p, n - 1, 0);
      TurnOf(Turns(w, p, n - 1), Polynomial(w, p, n - 1, 0), w(n - 1) * p[n - 1], Polynomial(w, p, n, 0));
    }
  }

  /** Both hashes are polynomials in 33 over the key bytes, reduced modulo 2^64 once. */
  lemma HashesArePolynomials(key: Block)
    ensures Hash1(key) == Polynomial(Ones(), key, KV_STR_LEN, 0) % TWO64
    ensures Hash2(key) == Polynomial(RandomNums(), key, KV_STR_LEN, 0) % TWO64
  {
    TurnsIsPolynomial(Ones(), key, KV_STR_LEN);
    TurnsIsPolynomial(RandomNums(), key, KV_STR_LEN);
  }

  /** The value of the key bytes as digits in base 33, the first one most significant. */
  function Plain(p: seq<Byte>, n: nat): nat
    requires n <= |p|
  {
    if n == 0 then 0 else 33 * Plain(p, n - 1) + p[n - 1]
  }

  function Term(w: nat, x: Byte): nat { w * x }

  /** The same, each byte multiplied by the weight of its position. */
  function Weighted(p: seq<Byte>, n: nat): nat
    requires n <= |p|
  {
    if n == 0 then 0 else 33 * Weighted(p, n - 1) + Term(RandomNum(n - 1), p[n - 1])
  }

  lemma WeightedZero(p: seq<Byte>)
    ensures Weighted(p, 0) == 0
  {
  }

  lemma {:induction false} TurnsArePlain(p: seq<Byte>, n: nat)
    requires n <= |p|
    ensures Turns(Ones(), p, n) == Plain(p, n) % TWO64
  {
    hide Turn, Turns;
    if n == 0 {
      TurnsZero(Ones(), p);
    } else {
      TurnsArePlain(p, n - 1);
      TurnsNext(Ones(), p, n - 1);
      TurnOf(Turns(Ones(), p, n - 1), Plain(p, n - 1), p[n - 1], Plain(p, n));
    }
  }

  lemma WeightedUnfolds(p: seq<Byte>, n: nat)
    requires n < |p|
    ensures Weighted(p, n + 1) == 33 * Weighted(p, n) + Term(RandomNum(n), p[n])
  {
  }

  /** A turn of the loop for hash2: w is the weight it reads from the table. */
  lemma WeightedTurn(p: seq<Byte>, n: nat, w: nat, c: nat)
    requires n < |p| && w == RandomNum(n) && c == Term(w, p[n])
    ensures Turns(RandomNums(), p, n + 1) == Turn(Turns(RandomNums(), p, n), c)
    ensures Turns(RandomNums(), p, n + 1) == (33 * Turns(RandomNums(), p, n) + c) % TWO64
  {
    hide RandomNum, Turn, Turns;
    assert RandomNums()(n) == w;
    TurnsNext(RandomNums(), p, n);
  }

  lemma {:induction false} TurnsAreWeighted(p: seq<Byte>, n: nat)
    requires n <= |p|
    ensures Turns(RandomNums(), p, n) == Weighted(p, n) % TWO64
  {
    hide Turn, Turns, Weighted, RandomNum, Term;
    if n == 0 {
      TurnsZero(RandomNums(), p);
      WeightedZero(p);
    } else {
      TurnsAreWeighted(p, n - 1);
      var c := Term(RandomNum(n - 1), p[n - 1]);
      WeightedTurn(p, n - 1, RandomNum(n - 1), c);
      WeightedUnfolds(p, n - 1);
      TurnOf(Turns(RandomNums(), p, n - 1), Weighted(p, n - 1), c, Weighted(p, n));
    }
  }

  /** Without any weight function: hash1 is the plain sum and hash2 the weighted one, modulo 2^64. */
  lemma HashesArePlain(key: Block)
    ensures Hash1(key) == Plain(key, 256) % 0x1_0000_0000_0000_0000
    ensures Hash2(key) == Weighted(key, 256) % 0x1_0000_0000_0000_0000
    ensures TripleOf(key).hash1 == Hash1(key) && TripleOf(key).hash2 == Hash2(key) && TripleOf(key).key == key
  {
    TurnsArePlain(key, 256);
    TurnsAreWeighted(key, 256);
  }

  /** The values the two hashes take during the loop, turn by turn. */
  lemma HashTrace(key: Block) returns (h1: seq<nat>, h2: seq<nat>)
    ensures |h1| == 257 && h1[0] == 0 && h1[256] == Hash1(key)
    ensures |h2| == 257 && h2[0] == 0 && h2[256] == Hash2(key)
    ensures forall i :: 0 <= i < 256 ==> h1[i + 1] == (33 * h1[i] + key[i]) % 0x1_0000_0000_0000_0000
    ensures forall i :: 0 <= i < 256 ==> h2[i + 1] == (33 * h2[i] + RandomNum(i) * key[i]) % 0x1_0000_0000_0000_0000
  {
    hide Turn, Turns, RandomNum;
    h1 := seq(257, i requires 0 <= i < 257 => Turns(Ones(), key, i));
    h2 := seq(257, i requires 0 <= i < 257 => Turns(RandomNums(), key, i));
    TurnsZero(Ones(), key);
    TurnsZero(RandomNums(), key);
    forall i | 0 <= i < 256
      ensures h1[i + 1] == (33 * h1[i] + key[i]) % 0x1_0000_0000_0000_0000
      ensures h2[i + 1] == (33 * h2[i] + RandomNum(i) * key[i]) % 0x1_0000_0000_0000_0000
    {
      TurnsNext(Ones(), key, i);
      WeightedTurn(key, i, RandomNum(i), Term(RandomNum(i), key[i]));
    }
  }

  // ---------- keys that differ in one position ----------

  /** 33 is invertible modulo 2^64, so a turn never merges two different intermediate hashes. */
  lemma TurnInjective(h: U64, h': U64, c: nat)
    requires Turn(h, c) == Turn(h', c)
    ensures h == h'
  {
    var d, e := h - h', (33 * h + c) / TWO64 - (33 * h' + c) / TWO64;
    assert 33 * d == TWO64 * e;
    // 1117984489315730401 * 33 == 2 * 2^64 + 1
    assert d == TWO64 * (1117984489315730401 * e - 2 * d);
  }

  ghost predicate DifferOnlyAt(a: Block, b: Block, i: nat) {
    i < KV_STR_LEN && a[i] != b[i] && forall j :: 0 <= j < KV_STR_LEN && j != i ==> a[j] == b[j]
  }

  lemma TurnSeparates(h: U64, w: nat, x: Byte, y: Byte)
    requires x != y && w < 256
    ensures Turn(h, w * x) == Turn(h, w * y) <==> w == 0
  {
    if w != 0 && Turn(h, w * x) == Turn(h, w * y) {
      ByteProduct(w, x);
      ByteProduct(w, y);
      var e := (33 * h + w * x) / TWO64 - (33 * h + w * y) / TWO64;
      assert w * x - w * y == TWO64 * e;
      assert w * x == w * y;
      ProductInjective(w, x, y);
    }
  }

  lemma ByteProduct(w: nat, x: Byte)
    requires w < 256
    ensures 0 <= w * x < 65536
  {
    assert w * x <= 255 * x;
  }

  lemma ProductInjective(w: int, x: int, y: int)
    requires w > 0 && w * x == w * y
    ensures x == y
  {
    assert w * (x - y) == 0;
  }

  lemma {:induction false} TurnsDiffer(w: nat -> nat, a: Block, b: Block, i: nat, n: nat)
    requires DifferOnlyAt(a, b, i) && w(i) < 256 && n <= KV_STR_LEN
    ensures n <= i ==> Turns(w, a, n) == Turns(w, b, n)
    ensures n > i ==> (Turns(w, a, n) == Turns(w, b, n) <==> w(i) == 0)
  {
    hide Turn, Turns;
    if n == 0 {
      TurnsZero(w, a);
      TurnsZero(w, b);
    } else {
      TurnsDiffer(w, a, b, i, n - 1);
      TurnsNext(w, a, n - 1);
      TurnsNext(w, b, n - 1);
      if n == i + 1 {
        TurnSeparates(Turns(w, a, i), w(i), a[i], b[i]);
      } else if n > i + 1 && Turns(w, a, n) == Turns(w, b, n) {
        TurnInjective(Turns(w, a, n - 1), Turns(w, b, n - 1), w(n - 1) * a[n - 1]);
      }
    }
  }

  lemma TurnsZero(w: nat -> nat, p: seq<Byte>)
    ensures Turns(w, p, 0) == 0
  {
  }

  lemma TurnsNext(w: nat -> nat, p: seq<Byte>, n: nat)
    requires n < |p|
    ensures Turns(w, p, n + 1) == Turn(Turns(w, p, n), w(n) * p[n])
    ensures Turns(w, p, n + 1) == (33 * Turns(w, p, n) + w(n) * p[n]) % TWO64
  {
  }

  /** hash1 always tells such keys apart; hash2 does unless they differ where its weight is 0. */
  lemma OnePositionHashes(a: Block, b: Block, i: nat)
    requires DifferOnlyAt(a, b, i)
    ensures Hash1(a) != Hash1(b)
    ensures Hash2(a) == Hash2(b) <==> RandomNum(i) == 0
  {
    TurnsDiffer(Ones(), a, b, i, KV_STR_LEN);
    assert RandomNums()(i) == RandomNum(i);
    TurnsDiffer(RandomNums(), a, b, i, KV_STR_LEN);
  }

  /** The one position hash2 does not see. */
  lemma BlindPosition(i: nat)
    requires i < KV_STR_LEN
    ensures RandomNum(i) == 0 <==> i == 153
  {
  }

  // ---------- padding ----------

  /** The bytes of a C string. */
  ghost predicate NulFree(s: seq<Byte>) {
    forall i :: 0 <= i < |s| ==> s[i] != 0
  }

  function UpToNul(s: seq<Byte>): (r: seq<Byte>)
    ensures |r| <= |s| && r == s[..|r|] && NulFree(r)
    ensures |r| < |s| ==> s[|r|] == 0
  {
    if s == [] || s[0] == 0 then [] else [s[0]] + UpToNul(s[1..])
  }

  function Truncated(s: seq<Byte>): seq<Byte> {
    if |s| <= KV_STR_LEN then s else s[..KV_STR_LEN]
  }

  /** At most 256 bytes of s, filled up with NUL. */
  function Pad(s: seq<Byte>): Block {
    Truncated(s) + seq(KV_STR_LEN - |Truncated(s)|, _ => 0)
  }

  /** Whether the copying loop stops at i: at the NUL, or when the buffer is full. */
  lemma CopyGoesOn(ptr: seq<Byte>, i: nat)
    requires (0 in ptr || |ptr| >= KV_STR_LEN) && i <= |Truncated(UpToNul(ptr))|
    ensures i < KV_STR_LEN ==> i < |ptr|
    ensures i < |Truncated(UpToNul(ptr))| <==> i < KV_STR_LEN && ptr[i] != 0
    ensures i < |Truncated(UpToNul(ptr))| ==> Pad(UpToNul(ptr))[i] == ptr[i]
  {
    var r := UpToNul(ptr);
    if i < |r| {
      assert r[i] == ptr[i];
    } else if |r| == |ptr| {
      assert r == ptr;
    }
  }

  lemma PadTail(s: seq<Byte>, i: nat)
    requires |Truncated(s)| <= i < KV_STR_LEN
    ensures Pad(s)[i] == 0
  {
  }

  /** Cutting at the NUL and padding, byte by byte: copied up to the first NUL, zero from there on. */
  lemma PadBytes(ptr: seq<Byte>)
    requires 0 in ptr || |ptr| >= KV_STR_LEN
    ensures forall i :: 0 <= i < 256 ==>
              && ((forall j :: 0 <= j <= i ==> j < |ptr| && ptr[j] != 0) ==> i < |ptr| && Pad(UpToNul(ptr))[i] == ptr[i])
              && ((exists j :: 0 <= j <= i && j < |ptr| && ptr[j] == 0) ==> Pad(UpToNul(ptr))[i] == 0)
  {
    var r := UpToNul(ptr);
    assert forall q :: 0 <= q < |r| ==> ptr[q] == r[q] != 0;
    forall i | 0 <= i < 256 && forall j :: 0 <= j <= i ==> j < |ptr| && ptr[j] != 0
      ensures i < |ptr| && Pad(r)[i] == ptr[i]
    {
      assert i < |r| && r[i] == ptr[i];
    }
    forall i | 0 <= i < 256 && exists j :: 0 <= j <= i && j < |ptr| && ptr[j] == 0
      ensures Pad(r)[i] == 0
    {
      var j :| 0 <= j <= i && j < |ptr| && ptr[j] == 0;
      assert |r| <= j;
    }
  }

  /** A buffer cleared behind its first NUL, byte by byte. */
  lemma NulledAt(b: Block, i: nat)
    requires i < KV_STR_LEN
    ensures Pad(UpToNul(b))[i] == if i < |UpToNul(b)| then b[i] else 0
    ensures i < |UpToNul(b)| ==> b[i] != 0
    ensures i == |UpToNul(b)| ==> b[i] == 0
  {
    if i < |UpToNul(b)| { assert UpToNul(b)[i] == b[i]; }
  }

  lemma UpToNulPad(s: seq<Byte>)
    requires NulFree(s)
    ensures UpToNul(Pad(s)) == Truncated(s)
  {
    UpToNulUnique(Pad(s), |Truncated(s)|);
  }

  lemma {:induction false} UpToNulUnique(s: seq<Byte>, n: nat)
    requires n <= |s| && NulFree(s[..n]) && (n < |s| ==> s[n] == 0)
    ensures UpToNul(s) == s[..n]
  {
    if n > 0 {
      assert s[..n][0] == s[0];
      assert s[1..][..n - 1] == s[..n][1..];
      UpToNulUnique(s[1..], n - 1);
    }
  }

  /** Two C strings give the same key exactly when they agree on their first 256 bytes. */
  lemma PadCollides(s: seq<Byte>, t: seq<Byte>)
    requires NulFree(s) && NulFree(t)
    ensures Pad(s) == Pad(t) <==> Truncated(s) == Truncated(t)
  {
    UpToNulPad(s);
    UpToNulPad(t);
  }

  /** `struct KVMessage` */
  class KVMessage {
    var statusCode: Byte
    var key: Block
    var value: Block
    var hash1: U64
    var hash2: U64

    constructor ()
      ensures statusCode == 0 && key == Pad([]) && value == Pad([]) && hash1 == 0 && hash2 == 0
    {
      statusCode, key, value, hash1, hash2 := 0, Pad([]), Pad([]), 0, 0;
    }

    function Id(): Triple
      reads this
    {
      Triple(hash1, hash2, key)
    }

    /** ptr is a C string: it has a NUL or at least 256 bytes to read. */
    method SetKey(ptr: seq<Byte>)
      requires 0 in ptr || |ptr| >= KV_STR_LEN
      modifies `key
      ensures key == Pad(UpToNul(ptr))
      ensures forall i :: 0 <= i < 256 ==>
                && ((forall j :: 0 <= j <= i ==> j < |ptr| && ptr[j] != 0) ==> i < |ptr| && key[i] == ptr[i])
                && ((exists j :: 0 <= j <= i && j < |ptr| && ptr[j] == 0) ==> key[i] == 0)
    {
      hide Pad, UpToNul;
      ghost var n, padded := |Truncated(UpToNul(ptr))|, Pad(UpToNul(ptr));
      var i := 0;
      CopyGoesOn(ptr, 0);
      while i < KV_STR_LEN && ptr[i] != 0
        invariant 0 <= i <= n && key[..i] == padded[..i]
        invariant i < KV_STR_LEN ==> i < |ptr|
        invariant i < n <==> i < KV_STR_LEN && ptr[i] != 0
        decreases KV_STR_LEN - i
      {
        CopyGoesOn(ptr, i);
        key := key[i := ptr[i]];
        i := i + 1;
        CopyGoesOn(ptr, i);
      }
      while i < KV_STR_LEN
        invariant n <= i <= KV_STR_LEN && key[..i] == padded[..i]
      {
        PadTail(UpToNul(ptr), i);
        key := key[i := 0];
        i := i + 1;
      }
      assert padded[..KV_STR_LEN] == padded;
      PadBytes(ptr);
      assert key[..KV_STR_LEN] == key;
    }

    method SetValue(ptr: seq<Byte>)
      requires 0 in ptr || |ptr| >= KV_STR_LEN
      modifies `value
      ensures value == Pad(UpToNul(ptr))
      ensures forall i :: 0 <= i < 256 ==>
                && ((forall j :: 0 <= j <= i ==> j < |ptr| && ptr[j] != 0) ==> i < |ptr| && value[i] == ptr[i])
                && ((exists j :: 0 <= j <= i && j < |ptr| && ptr[j] == 0) ==> value[i] == 0)
    {
      hide Pad, UpToNul;
      ghost var n, padded := |Truncated(UpToNul(ptr))|, Pad(UpToNul(ptr));
      var i := 0;
      CopyGoesOn(ptr, 0);
      while i < KV_STR_LEN && ptr[i] != 0
        invariant 0 <= i <= n && value[..i] == padded[..i]
        invariant i < KV_STR_LEN ==> i < |ptr|
        invariant i < n <==> i < KV_STR_LEN && ptr[i] != 0
        decreases KV_STR_LEN - i
      {
        CopyGoesOn(ptr, i);
        value := value[i := ptr[i]];
        i := i + 1;
        CopyGoesOn(ptr, i);
      }
      while i < KV_STR_LEN
        invariant n <= i <= KV_STR_LEN && value[..i] == padded[..i]
      {
        PadTail(UpToNul(ptr), i);
        value := value[i := 0];
        i := i + 1;
      }
      assert padded[..KV_STR_LEN] == padded;
      PadBytes(ptr);
      assert value[..KV_STR_LEN] == value;
    }

    /** Clears every byte behind the first NUL of the key. */
    method FixKeyNulling()
      modifies `key
      ensures key == Pad(UpToNul(old(key)))
      ensures forall i :: 0 <= i < 256 ==> key[i] == if exists j :: 0 <= j <= i && old(key)[j] == 0 then 0 else old(key)[i]
    {
      hide Pad, UpToNul;
      ghost var was, fixed := key, Pad(UpToNul(key));
      var zeroEncountered := false;
      for i := 0 to KV_STR_LEN
        invariant zeroEncountered <==> i > |UpToNul(was)|
        invariant key[..i] == fixed[..i] && key[i..] == was[i..]
      {
        NulledAt(was, i);
        assert key[i] == was[i];
        if key[i] == 0 { zeroEncountered := true; }
        if zeroEncountered { key := key[i := 0]; }
      }
      assert key[..KV_STR_LEN] == key && fixed[..KV_STR_LEN] == fixed;
      PadBytes(was);
    }

    method CalculateKeyHash()
      modifies `hash1, `hash2
      ensures Id() == TripleOf(key)
      ensures hash1 == Plain(key, 256) % 0x1_0000_0000_0000_0000
      ensures hash2 == Weighted(key, 256) % 0x1_0000_0000_0000_0000
    {
      hash1, hash2 := 0, 0;
      hide Turn, Turns, Plain, Weighted, RandomNum;
      TurnsZero(Ones(), key);
      TurnsZero(RandomNums(), key);
      var randomNums := RandomTable();
      for i := 0 to KV_STR_LEN
        invariant hash1 == Turns(Ones(), key, i)
        invariant hash2 == Turns(RandomNums(), key, i)
      {
        TurnsNext(Ones(), key, i);
        WeightedTurn(key, i, randomNums[i], Term(randomNums[i], key[i]));
        hash1 := (33 * hash1 + key[i]) % TWO64;
        hash2 := (33 * hash2 + randomNums[i] * key[i]) % TWO64;
      }
      HashesArePlain(key);
    }
  }
}
