/** The reference: one dictionary, and the reply bytes every request must get. */
module Dictionary {
  import opened Types

  const GET: Byte := 1
  const PUT: Byte := 2
  const DEL: Byte := 3
  const SUCCESS: Byte := 200
  const ERROR: Byte := 240

  /** A request on a dictionary: a code byte, a key, and for PUT a value. */
  datatype Operation<K, V> = Operation(code: Byte, key: K, value: V)

  /** A request as the server reads it: both buffers are 256 bytes. */
  type Request = Operation<Block, Block>

  /** "Entry not found", filled up with NUL. */
  function ErrorMessage(): Block {
    [69, 110, 116, 114, 121, 32, 110, 111, 116, 32, 102, 111, 117, 110, 100] + seq(KV_STR_LEN - 15, _ => 0)
  }

  type Dict = map<Block, Block>

  /** What the solutions generator prints: a value, -SUCCESS- or -ERROR-. */
  datatype Answer<V> = Value(value: V) | Success | Error

  predicate Known<K, V>(r: Operation<K, V>) {
    r.code == GET || r.code == PUT || r.code == DEL
  }

  function AnswerTo<K, V>(d: map<K, V>, r: Operation<K, V>): Answer<V>
    requires Known(r)
  {
    if r.code == GET then (if r.key in d then Value(d[r.key]) else Error)
    else if r.code == PUT then Success
    else if r.key in d then Success else Error
  }

  function Update<K, V>(d: map<K, V>, r: Operation<K, V>): map<K, V> {
    if r.code == PUT then d[r.key := r.value]
    else if r.code == DEL then d - {r.key}
    else d
  }

  /** The bytes an answer takes on the wire. */
  function Wire(a: Answer<Block>): seq<Byte> {
    match a
    case Value(v) => [SUCCESS] + v
    case Success => [SUCCESS]
    case Error => [ERROR] + ErrorMessage()
  }

  /** An unknown request code gets a bare error byte and changes nothing. */
  function Reply(d: Dict, r: Request): seq<Byte> {
    if Known(r) then Wire(AnswerTo(d, r)) else [ERROR]
  }

  /** What a request means, in numbers: 1 reads, 2 stores, 3 removes; only a hit of 1 has a value to show. */
  lemma RequestMeaning<K, V>(d: map<K, V>, r: Operation<K, V>)
    ensures Known(r) <==> r.code == 1 || r.code == 2 || r.code == 3
    ensures r.code == 1 ==> AnswerTo(d, r) == if r.key in d then Value(d[r.key]) else Error
    ensures r.code == 2 ==> AnswerTo(d, r) == Success
    ensures r.code == 3 ==> AnswerTo(d, r) == if r.key in d then Success else Error
    ensures Update(d, r) == if r.code == 2 then d[r.key := r.value] else if r.code == 3 then d - {r.key} else d
  {
  }

  /** The bytes behind an error: the text, filled up with NUL. */
  lemma ErrorText()
    ensures |ErrorMessage()| == 256
    ensures forall i :: 0 <= i < 15 ==> ErrorMessage()[i] as char == "Entry not found"[i]
    ensures forall i :: 15 <= i < 256 ==> ErrorMessage()[i] == 0
  {
  }

  /** The bytes on the wire, in numbers: 200 for success, 240 for an error. */
  lemma WireBytes(d: Dict, r: Request)
    ensures var reply := Reply(d, r);
            && (r.code == 1 ==> reply == if r.key in d then [200] + d[r.key] else [240] + ErrorMessage())
            && (r.code == 2 ==> reply == [200])
            && (r.code == 3 ==> reply == if r.key in d then [200] else [240] + ErrorMessage())
            && (r.code == 0 || r.code > 3 ==> reply == [240])
  {
  }

  /** A client can tell every two answers apart, and success from failure by the first byte. */
  lemma WireTellsApart(a: Answer<Block>, b: Answer<Block>)
    ensures Wire(a)[0] == 200 <==> a != Error
    ensures Wire(a)[0] == 240 <==> a == Error
    ensures Wire(a) == Wire(b) ==> a == b
  {
    if a.Value? { assert Wire(a)[1..] == a.value && |Wire(a)| == 257; }
    if b.Value? { assert Wire(b)[1..] == b.value && |Wire(b)| == 257; }
  }

  function Replies(d: Dict, rs: seq<Request>): (replies: seq<seq<Byte>>)
    ensures |replies| == |rs|
    decreases |rs|
  {
    if rs == [] then [] else [Reply(d, rs[0])] + Replies(Update(d, rs[0]), rs[1..])
  }

  function After<K, V>(d: map<K, V>, rs: seq<Operation<K, V>>): map<K, V>
    decreases |rs|
  {
    if rs == [] then d else After(Update(d, rs[0]), rs[1..])
  }

  lemma {:induction false} RepliesConcat(d: Dict, a: seq<Request>, b: seq<Request>)
    ensures Replies(d, a + b) == Replies(d, a) + Replies(After(d, a), b)
    ensures After(d, a + b) == After(After(d, a), b)
    decreases |a|
  {
    if a == [] {
      assert a + b == b;
    } else {
      assert (a + b)[1..] == a[1..] + b;
      assert (a + b)[0] == a[0];
      RepliesConcat(Update(d, a[0]), a[1..], b);
    }
  }

  /** The answers to the known requests among rs. */
  function Answers<K, V>(d: map<K, V>, rs: seq<Operation<K, V>>): seq<Answer<V>>
    decreases |rs|
  {
    if rs == [] then []
    else (if Known(rs[0]) then [AnswerTo(d, rs[0])] else []) + Answers(Update(d, rs[0]), rs[1..])
  }

  lemma {:induction false} AnswersSnoc<K, V>(d: map<K, V>, rs: seq<Operation<K, V>>, r: Operation<K, V>)
    ensures After(d, rs + [r]) == Update(After(d, rs), r)
    ensures Answers(d, rs + [r]) == Answers(d, rs) + if Known(r) then [AnswerTo(After(d, rs), r)] else []
    decreases |rs|
  {
    hide AnswerTo, Update, Known;
    if rs == [] {
      assert Answers(Update(d, r), []) == [];
      assert After(Update(d, r), []) == Update(d, r);
      assert (rs + [r])[1..] == [] && (rs + [r])[0] == r;
    } else {
      assert (rs + [r])[1..] == rs[1..] + [r] && (rs + [r])[0] == rs[0];
      AnswersSnoc(Update(d, rs[0]), rs[1..], r);
      var first := if Known(rs[0]) then [AnswerTo(d, rs[0])] else [];
      var last := if Known(r) then [AnswerTo(After(d, rs), r)] else [];
      var middle := Answers(Update(d, rs[0]), rs[1..]);
      assert Answers(d, rs + [r]) == first + (middle + last);
      assert first + (middle + last) == (first + middle) + last;
    }
  }

  lemma FirstReply(d: Dict, rs: seq<Request>)
    requires rs != [] && Known(rs[0])
    ensures Replies(d, rs)[0] == Wire(AnswerTo(d, rs[0]))
    ensures Answers(d, rs) == [AnswerTo(d, rs[0])] + Answers(Update(d, rs[0]), rs[1..])
  {
  }

  /** When every code is known, the replies are the answers on the wire. */
  lemma {:induction false} RepliesAreAnswers(d: Dict, rs: seq<Request>)
    requires forall r :: r in rs ==> Known(r)
    ensures |Answers(d, rs)| == |rs|
    ensures forall i :: 0 <= i < |rs| ==> Replies(d, rs)[i] == Wire(Answers(d, rs)[i])
    decreases |rs|
  {
    hide Known, AnswerTo, Update, Wire;
    if rs != [] {
      assert rs[0] in rs && forall r :: r in rs[1..] ==> r in rs;
      RepliesAreAnswers(Update(d, rs[0]), rs[1..]);
      FirstReply(d, rs);
      assert forall i :: 1 <= i < |rs| ==> Replies(d, rs)[i] == Replies(Update(d, rs[0]), rs[1..])[i - 1];
    }
  }

  /** The solutions generator: the number of requests, then a loop that updates the dictionary and emits each answer. */
  method Solutions<K(==), V>(rs: seq<Operation<K, V>>) returns (count: nat, out: seq<Answer<V>>, kv: map<K, V>)
    ensures count == |rs|
    ensures out == Answers(map[], rs)
    ensures kv == After(map[], rs)
  {
    count := |rs|;
    out, kv := [], map[];
    for i := 0 to count
      invariant out == Answers(map[], rs[..i])
      invariant kv == After(map[], rs[..i])
    {
      var r := rs[i];
      assert rs[..i + 1] == rs[..i] + [r];
      AnswersSnoc(map[], rs[..i], r);
      if r.code == GET {
        if r.key in kv {
          out := out + [Value(kv[r.key])];
        } else {
          out := out + [Error];
        }
      } else if r.code == PUT {
        kv := kv[r.key := r.value];
        out := out + [Success];
      } else if r.code == DEL {
        if r.key in kv {
          kv := kv - {r.key};
          out := out + [Success];
        } else {
          out := out + [Error];
        }
      }
    }
    assert rs[..|rs|] == rs;
  }
}
