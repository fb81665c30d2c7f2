/** Requests given as C strings, and what 256-byte buffers do to the dictionary of strings. */
module Strings {
  import opened Types
  import opened Message
  import D = Dictionary

  type CString = seq<Byte>

  type StringRequest = D.Operation<CString, CString>

  ghost predicate Clean(r: StringRequest) {
    NulFree(r.key)
  }

  /** What `set_key` and `set_value` make of a request. */
  function Packed(r: StringRequest): D.Request {
    D.Operation(r.code, Pad(r.key), Pad(r.value))
  }

  /** The request with both strings cut to 256 bytes. */
  function Cut(r: StringRequest): StringRequest {
    D.Operation(r.code, Truncated(r.key), Truncated(r.value))
  }

  function PackedAll(rs: seq<StringRequest>): (ps: seq<D.Request>)
    ensures |ps| == |rs| && forall i :: 0 <= i < |rs| ==> ps[i] == Packed(rs[i])
  {
    seq(|rs|, i requires 0 <= i < |rs| => Packed(rs[i]))
  }

  function CutAll(rs: seq<StringRequest>): (cs: seq<StringRequest>)
    ensures |cs| == |rs| && forall i :: 0 <= i < |rs| ==> cs[i] == Cut(rs[i])
  {
    seq(|rs|, i requires 0 <= i < |rs| => Cut(rs[i]))
  }

  function PackedAnswer(a: D.Answer<CString>): D.Answer<Block> {
    match a
    case Value(s) => D.Value(Pad(s))
    case Success => D.Success
    case Error => D.Error
  }

  function PackedAnswers(xs: seq<D.Answer<CString>>): (ys: seq<D.Answer<Block>>)
    ensures |ys| == |xs| && forall i :: 0 <= i < |xs| ==> ys[i] == PackedAnswer(xs[i])
  {
    seq(|xs|, i requires 0 <= i < |xs| => PackedAnswer(xs[i]))
  }

  /** Packing, byte by byte: each buffer holds the string, cut to 256 bytes, and then NULs. */
  lemma PackedIs(r: StringRequest, i: nat)
    requires i < 256
    ensures Packed(r).code == r.code
    ensures Packed(r).key[i] == if i < |r.key| then r.key[i] else 0
    ensures Packed(r).value[i] == if i < |r.value| then r.value[i] else 0
    ensures PackedAnswer(D.Value(r.value)) == D.Value(Packed(r).value)
  {
  }

  function PackedValue(v: Option<CString>): Option<Block> {
    if v.Some? then Some(Pad(v.value)) else None
  }

  lemma SameCode(r: StringRequest)
    ensures D.Known(Packed(r)) == D.Known(r) == D.Known(Cut(r))
  {
  }

  lemma PackedAnswersConcat(xs: seq<D.Answer<CString>>, ys: seq<D.Answer<CString>>)
    ensures PackedAnswers(xs + ys) == PackedAnswers(xs) + PackedAnswers(ys)
  {
  }

  lemma PackedTail(rs: seq<StringRequest>)
    requires rs != []
    ensures PackedAll(rs)[0] == Packed(rs[0]) && PackedAll(rs)[1..] == PackedAll(rs[1..])
    ensures CutAll(rs)[0] == Cut(rs[0]) && CutAll(rs)[1..] == CutAll(rs[1..])
  {
  }

  // ---------- cutting the strings first ----------

  /** d is the dictionary of strings sd with keys and values packed. */
  ghost predicate Packs(d: D.Dict, sd: map<CString, CString>) {
    forall s: CString :: NulFree(s) && |s| <= KV_STR_LEN ==> Lookup(d, Pad(s)) == PackedValue(Lookup(sd, s))
  }

  lemma PackedStep(d: D.Dict, sd: map<CString, CString>, r: StringRequest)
    requires Packs(d, sd) && Clean(r)
    ensures D.Known(r) ==> D.AnswerTo(d, Packed(r)) == PackedAnswer(D.AnswerTo(sd, Cut(r)))
    ensures Packs(D.Update(d, Packed(r)), D.Update(sd, Cut(r)))
  {
    var key := Truncated(r.key);
    assert Pad(key) == Pad(r.key) && Pad(Truncated(r.value)) == Pad(r.value);
    assert Lookup(d, Pad(key)) == PackedValue(Lookup(sd, key));
    forall s: CString | NulFree(s) && |s| <= KV_STR_LEN
      ensures Lookup(D.Update(d, Packed(r)), Pad(s)) == PackedValue(Lookup(D.Update(sd, Cut(r)), s))
    {
      PadCollides(s, r.key);
      assert Lookup(d, Pad(s)) == PackedValue(Lookup(sd, s));
    }
  }

  /** Packed requests are answered as a dictionary of strings answers the same requests cut to 256 bytes. */
  lemma {:induction false} PackedAnswersAgree(d: D.Dict, sd: map<CString, CString>, rs: seq<StringRequest>)
    requires Packs(d, sd) && forall r :: r in rs ==> Clean(r)
    ensures D.Answers(d, PackedAll(rs)) == PackedAnswers(D.Answers(sd, CutAll(rs)))
    decreases |rs|
  {
    hide Packs, Clean, Packed, Cut, D.Known, D.AnswerTo, D.Update, PackedAnswer;
    if rs != [] {
      var r := rs[0];
      assert r in rs && forall q :: q in rs[1..] ==> q in rs;
      PackedStep(d, sd, r);
      PackedAnswersAgree(D.Update(d, Packed(r)), D.Update(sd, Cut(r)), rs[1..]);
      PackedTail(rs);
      SameCode(r);
      PackedAnswersConcat(if D.Known(r) then [D.AnswerTo(sd, Cut(r))] else [],
                          D.Answers(D.Update(sd, Cut(r)), CutAll(rs[1..])));
    }
  }

  /** On the wire: each reply to a packed request carries the string dictionary's answer to the cut request. */
  lemma PackedReplies(rs: seq<StringRequest>)
    requires forall r :: r in rs ==> Clean(r) && D.Known(r)
    ensures |D.Answers(map[], CutAll(rs))| == |rs|
    ensures forall i :: 0 <= i < |rs| ==>
              D.Replies(map[], PackedAll(rs))[i] == D.Wire(PackedAnswer(D.Answers(map[], CutAll(rs))[i]))
  {
    forall p | p in PackedAll(rs) ensures D.Known(p) {
      var i :| 0 <= i < |rs| && PackedAll(rs)[i] == p;
      assert rs[i] in rs;
      SameCode(rs[i]);
    }
    PackedAnswersAgree(map[], map[], rs);
    D.RepliesAreAnswers(map[], PackedAll(rs));
  }

  // ---------- when the plain dictionary of strings is met ----------

  /** Packing makes no difference to the answers. */
  ghost predicate Met(rs: seq<StringRequest>) {
    D.Answers(map[], PackedAll(rs)) == PackedAnswers(D.Answers(map[], rs))
  }

  ghost predicate KeysIn(rs: seq<StringRequest>, keys: iset<CString>) {
    forall r :: r in rs ==> r.key in keys
  }

  /** No two of the keys agree on their first 256 bytes. */
  ghost predicate ToldApart(keys: iset<CString>) {
    forall s, t :: s in keys && t in keys && Truncated(s) == Truncated(t) ==> s == t
  }

  ghost predicate PacksOn(d: D.Dict, sd: map<CString, CString>, keys: iset<CString>) {
    forall s :: s in keys ==> Lookup(d, Pad(s)) == PackedValue(Lookup(sd, s))
  }

  lemma StepOn(d: D.Dict, sd: map<CString, CString>, r: StringRequest, keys: iset<CString>)
    requires (forall s :: s in keys ==> NulFree(s)) && ToldApart(keys)
    requires PacksOn(d, sd, keys) && r.key in keys
    ensures D.Known(r) ==> D.AnswerTo(d, Packed(r)) == PackedAnswer(D.AnswerTo(sd, r))
    ensures PacksOn(D.Update(d, Packed(r)), D.Update(sd, r), keys)
  {
    assert Lookup(d, Pad(r.key)) == PackedValue(Lookup(sd, r.key));
    forall s | s in keys
      ensures Lookup(D.Update(d, Packed(r)), Pad(s)) == PackedValue(Lookup(D.Update(sd, r), s))
    {
      PadCollides(s, r.key);
      assert Lookup(d, Pad(s)) == PackedValue(Lookup(sd, s));
    }
  }

  lemma {:induction false} AnswersOn(d: D.Dict, sd: map<CString, CString>, rs: seq<StringRequest>, keys: iset<CString>)
    requires (forall s :: s in keys ==> NulFree(s)) && ToldApart(keys)
    requires PacksOn(d, sd, keys) && KeysIn(rs, keys)
    ensures D.Answers(d, PackedAll(rs)) == PackedAnswers(D.Answers(sd, rs))
    decreases |rs|
  {
    hide PacksOn, ToldApart, Packed, D.Known, D.AnswerTo, D.Update, PackedAnswer;
    if rs != [] {
      var r := rs[0];
      assert r in rs && forall q :: q in rs[1..] ==> q in rs;
      StepOn(d, sd, r, keys);
      AnswersOn(D.Update(d, Packed(r)), D.Update(sd, r), rs[1..], keys);
      PackedTail(rs);
      SameCode(r);
      PackedAnswersConcat(if D.Known(r) then [D.AnswerTo(sd, r)] else [], D.Answers(D.Update(sd, r), rs[1..]));
    }
  }

  /** A PUT under s is visible to a GET of t exactly when the two agree on their first 256 bytes. */
  lemma SeenUnder(s: CString, t: CString, v: CString)
    requires NulFree(s) && NulFree(t)
    ensures D.AnswerTo(D.Update(map[], Packed(D.Operation(D.PUT, s, v))), Packed(D.Operation(D.GET, t, v))) == D.Value(Pad(v))
      <==> Truncated(s) == Truncated(t)
  {
    PadCollides(s, t);
  }

  lemma PutThenGet<K, V>(put: D.Operation<K, V>, get: D.Operation<K, V>)
    requires put.code == D.PUT && get.code == D.GET
    ensures D.Answers(map[], [put, get]) == [D.Success, D.AnswerTo(map[put.key := put.value], get)]
  {
    var d := D.Update(map[], put);
    assert d == map[put.key := put.value];
    assert [put, get][1..] == [get] && [get][1..] == [];
    assert D.Answers(D.Update(d, get), []) == [];
    assert D.Answers(d, [get]) == [D.AnswerTo(d, get)];
  }

  /** Any two different keys that agree on their first 256 bytes are one entry, and a PUT and a GET show it. */
  lemma LongKeysMerge(s: CString, t: CString, v: CString)
    requires NulFree(s) && NulFree(t) && s != t && Truncated(s) == Truncated(t)
    ensures !Met([D.Operation(D.PUT, s, v), D.Operation(D.GET, t, v)])
  {
    var put: StringRequest, get: StringRequest := D.Operation(D.PUT, s, v), D.Operation(D.GET, t, v);
    assert PackedAll([put, get]) == [Packed(put), Packed(get)];
    PutThenGet(put, get);
    PutThenGet(Packed(put), Packed(get));
    SeenUnder(s, t, v);
    assert D.Answers(map[], [put, get])[1] == D.Error;
    assert D.Answers(map[], PackedAll([put, get]))[1] == D.Value(Pad(v));
  }

  /** All runs over a set of keys meet the plain dictionary of strings exactly when 256 bytes tell the keys apart. */
  lemma MetExactlyWhenToldApart(keys: iset<CString>)
    requires forall s :: s in keys ==> NulFree(s)
    ensures (forall rs :: KeysIn(rs, keys) ==> Met(rs)) <==> ToldApart(keys)
  {
    if ToldApart(keys) {
      forall rs | KeysIn(rs, keys) ensures Met(rs) {
        AnswersOn(map[], map[], rs, keys);
      }
    } else {
      var s, t :| s in keys && t in keys && Truncated(s) == Truncated(t) && s != t;
      LongKeysMerge(s, t, []);
      assert KeysIn([D.Operation(D.PUT, s, []), D.Operation(D.GET, t, [])], keys);
    }
  }

  /** In particular with keys of at most 256 bytes, whatever the values are. */
  lemma ShortStringsAgree(rs: seq<StringRequest>)
    requires forall r :: r in rs ==> Clean(r) && |r.key| <= KV_STR_LEN
    ensures D.Answers(map[], PackedAll(rs)) == PackedAnswers(D.Answers(map[], rs))
  {
    AnswersOn(map[], map[], rs, iset s: CString | NulFree(s) && |s| <= KV_STR_LEN);
  }

  // ---------- buffers with anything behind the NUL ----------

  /** The strings in the two buffers of a request. */
  function AsStrings(r: D.Request): StringRequest {
    D.Operation(r.code, UpToNul(r.key), UpToNul(r.value))
  }

  /** The request after `fix_key_nulling`; the value buffer keeps what it holds. */
  function Nulled(r: D.Request): D.Request {
    r.(key := Pad(UpToNul(r.key)))
  }

  /** An answer as its reader sees it: up to the NUL. */
  function AsRead(a: D.Answer<Block>): D.Answer<CString> {
    match a
    case Value(v) => D.Value(UpToNul(v))
    case Success => D.Success
    case Error => D.Error
  }

  function AllAsStrings(rs: seq<D.Request>): (ss: seq<StringRequest>)
    ensures |ss| == |rs| && forall i :: 0 <= i < |rs| ==> ss[i] == AsStrings(rs[i])
  {
    seq(|rs|, i requires 0 <= i < |rs| => AsStrings(rs[i]))
  }

  function NulledAll(rs: seq<D.Request>): (ns: seq<D.Request>)
    ensures |ns| == |rs| && forall i :: 0 <= i < |rs| ==> ns[i] == Nulled(rs[i])
  {
    seq(|rs|, i requires 0 <= i < |rs| => Nulled(rs[i]))
  }

  function AllAsRead(xs: seq<D.Answer<Block>>): (ys: seq<D.Answer<CString>>)
    ensures |ys| == |xs| && forall i :: 0 <= i < |xs| ==> ys[i] == AsRead(xs[i])
  {
    seq(|xs|, i requires 0 <= i < |xs| => AsRead(xs[i]))
  }

  function ValueAsRead(v: Option<Block>): Option<CString> {
    if v.Some? then Some(UpToNul(v.value)) else None
  }

  ghost predicate ReadsKey(d: D.Dict, sd: map<CString, CString>, k: Block) {
    Lookup(sd, UpToNul(k)) == ValueAsRead(Lookup(d, Pad(UpToNul(k))))
  }

  /** sd is what d says about string keys, read up to the NUL. */
  ghost predicate ReadsAs(d: D.Dict, sd: map<CString, CString>) {
    forall k: Block :: ReadsKey(d, sd, k)
  }

  lemma NulledKeys(k: Block, k': Block)
    ensures Pad(UpToNul(k)) == Pad(UpToNul(k')) <==> UpToNul(k) == UpToNul(k')
  {
    PadCollides(UpToNul(k), UpToNul(k'));
  }

  lemma NulledLookup(d: D.Dict, sd: map<CString, CString>, k: Block)
    requires ReadsAs(d, sd)
    ensures ReadsKey(d, sd, k)
  {
  }

  lemma NulledReads(d: D.Dict, sd: map<CString, CString>)
    requires forall k: Block :: ReadsKey(d, sd, k)
    ensures ReadsAs(d, sd)
  {
  }

  lemma NulledStep(d: D.Dict, sd: map<CString, CString>, r: D.Request)
    requires ReadsAs(d, sd)
    ensures D.Known(r) ==> AsRead(D.AnswerTo(d, Nulled(r))) == D.AnswerTo(sd, AsStrings(r))
    ensures ReadsAs(D.Update(d, Nulled(r)), D.Update(sd, AsStrings(r)))
  {
    hide Pad, UpToNul, ReadsAs;
    NulledLookup(d, sd, r.key);
    forall k: Block ensures ReadsKey(D.Update(d, Nulled(r)), D.Update(sd, AsStrings(r)), k) {
      NulledKeys(k, r.key);
      NulledLookup(d, sd, k);
    }
    NulledReads(D.Update(d, Nulled(r)), D.Update(sd, AsStrings(r)));
  }

  lemma NulledTail(rs: seq<D.Request>)
    requires rs != []
    ensures NulledAll(rs)[0] == Nulled(rs[0]) && NulledAll(rs)[1..] == NulledAll(rs[1..])
    ensures AllAsStrings(rs)[0] == AsStrings(rs[0]) && AllAsStrings(rs)[1..] == AllAsStrings(rs[1..])
    ensures D.Known(Nulled(rs[0])) == D.Known(rs[0]) == D.Known(AsStrings(rs[0]))
  {
  }

  lemma AllAsReadConcat(xs: seq<D.Answer<Block>>, ys: seq<D.Answer<Block>>)
    ensures AllAsRead(xs + ys) == AllAsRead(xs) + AllAsRead(ys)
  {
  }

  /**
   Whatever the buffers hold behind their NULs: with keys cleared there, the answers, read up to their
   NUL, are those the dictionary of strings gives to the strings in the buffers.
   */
  lemma {:induction false} BuffersAnswerAsStrings(d: D.Dict, sd: map<CString, CString>, rs: seq<D.Request>)
    requires ReadsAs(d, sd)
    ensures AllAsRead(D.Answers(d, NulledAll(rs))) == D.Answers(sd, AllAsStrings(rs))
    decreases |rs|
  {
    hide ReadsAs, Nulled, AsStrings, AsRead, D.Known, D.AnswerTo, D.Update;
    if rs != [] {
      var r := rs[0];
      NulledStep(d, sd, r);
      BuffersAnswerAsStrings(D.Update(d, Nulled(r)), D.Update(sd, AsStrings(r)), rs[1..]);
      NulledTail(rs);
      AllAsReadConcat(if D.Known(Nulled(r)) then [D.AnswerTo(d, Nulled(r))] else [],
                      D.Answers(D.Update(d, Nulled(r)), NulledAll(rs[1..])));
    }
  }
}
