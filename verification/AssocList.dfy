/** A bucket as what it means: an association list from triples to values. */
module AssocList {
  import opened Types

  datatype Pair = Pair(id: Triple, value: Block)

  ghost predicate UniqueIds(es: seq<Pair>) {
    forall i, j :: 0 <= i < j < |es| ==> es[i].id != es[j].id
  }

  ghost predicate Absent(es: seq<Pair>, t: Triple) {
    forall i :: 0 <= i < |es| ==> es[i].id != t
  }

  function Get(es: seq<Pair>, t: Triple): Option<Block> {
    if es == [] then None
    else if es[0].id == t then Some(es[0].value)
    else Get(es[1..], t)
  }

  /** Replaces the value of the first entry for t, or adds an entry at the end. */
  function Put(es: seq<Pair>, t: Triple, v: Block): seq<Pair> {
    if es == [] then [Pair(t, v)]
    else if es[0].id == t then [Pair(t, v)] + es[1..]
    else [es[0]] + Put(es[1..], t, v)
  }

  /** Removes the first entry for t. */
  function Delete(es: seq<Pair>, t: Triple): seq<Pair> {
    if es == [] then []
    else if es[0].id == t then es[1..]
    else [es[0]] + Delete(es[1..], t)
  }

  lemma {:induction false} AtIndex(es: seq<Pair>, k: nat, v: Block)
    requires UniqueIds(es) && k < |es|
    ensures Get(es, es[k].id) == Some(es[k].value)
    ensures Put(es, es[k].id, v) == es[k := Pair(es[k].id, v)]
    ensures Delete(es, es[k].id) == RemoveAt(es, k)
  {
    if k == 0 {
      assert Put(es, es[0].id, v) == es[0 := Pair(es[0].id, v)];
    } else {
      assert es[1..][k - 1] == es[k] && es[0].id != es[k].id;
      AtIndex(es[1..], k - 1, v);
      assert es[k := Pair(es[k].id, v)] == [es[0]] + es[1..][k - 1 := Pair(es[k].id, v)];
      RemoveAtNext(es, k);
    }
  }

  lemma {:induction false} WhenAbsent(es: seq<Pair>, t: Triple, v: Block)
    requires Absent(es, t)
    ensures Get(es, t) == None
    ensures Put(es, t, v) == es + [Pair(t, v)]
    ensures Delete(es, t) == es
  {
    if es != [] { WhenAbsent(es[1..], t, v); }
  }

  lemma {:induction false} GetNone(es: seq<Pair>, t: Triple)
    ensures Get(es, t) == None <==> Absent(es, t)
  {
    if es != [] {
      GetNone(es[1..], t);
      assert forall i :: 1 <= i < |es| ==> es[i] == es[1..][i - 1];
    }
  }

  lemma GetAt(es: seq<Pair>, k: nat)
    requires UniqueIds(es) && k < |es|
    ensures Get(es, es[k].id) == Some(es[k].value)
  {
    AtIndex(es, k, es[k].value);
  }

  lemma GetSome(es: seq<Pair>, t: Triple) returns (k: nat)
    requires Get(es, t).Some?
    ensures k < |es| && es[k].id == t
  {
    GetNone(es, t);
    k :| 0 <= k < |es| && es[k].id == t;
  }

  lemma {:induction false} GetPut(es: seq<Pair>, t: Triple, v: Block, u: Triple)
    ensures Get(Put(es, t, v), u) == if u == t then Some(v) else Get(es, u)
  {
    if es != [] && es[0].id != t {
      GetPut(es[1..], t, v, u);
    }
  }

  lemma {:induction false} GetDelete(es: seq<Pair>, t: Triple, u: Triple)
    requires UniqueIds(es)
    ensures Get(Delete(es, t), u) == if u == t then None else Get(es, u)
  {
    if es != [] {
      if es[0].id == t {
        GetNone(es[1..], t);
      } else {
        GetDelete(es[1..], t, u);
      }
    }
  }
}
