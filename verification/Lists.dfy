/** Recency lists as sequences without duplicates. */
module Lists {
  import opened Types

  /** s without the first occurrence of t. */
  function Without<T(==)>(s: seq<T>, t: T): seq<T> {
    if s == [] then []
    else if s[0] == t then s[1..]
    else [s[0]] + Without(s[1..], t)
  }

  function ToFront<T(==)>(s: seq<T>, t: T): seq<T> {
    [t] + Without(s, t)
  }

  lemma {:induction false} WithoutAt<T>(s: seq<T>, k: nat)
    requires NoDup(s) && k < |s|
    ensures Without(s, s[k]) == RemoveAt(s, k)
  {
    if k == 0 {
      assert RemoveAt(s, 0) == s[1..];
    } else {
      assert s[0] != s[k] && s[1..][k - 1] == s[k];
      WithoutAt(s[1..], k - 1);
      RemoveAtNext(s, k);
    }
  }

  lemma {:induction false} WithoutAbsent<T>(s: seq<T>, t: T)
    requires t !in s
    ensures Without(s, t) == s
  {
    if s != [] { WithoutAbsent(s[1..], t); }
  }

  lemma {:induction false} WithoutMembers<T>(s: seq<T>, t: T)
    requires NoDup(s)
    ensures NoDup(Without(s, t))
    ensures forall x :: x in Without(s, t) <==> x in s && x != t
    ensures t in s ==> |Without(s, t)| == |s| - 1
  {
    if t in s {
      var k :| 0 <= k < |s| && s[k] == t;
      WithoutAt(s, k);
      forall x ensures x in RemoveAt(s, k) <==> x in s && x != t {
        if x in s && x != t {
          var i :| 0 <= i < |s| && s[i] == x;
          assert RemoveAt(s, k)[if i < k then i else i - 1] == x;
        }
      }
    } else {
      WithoutAbsent(s, t);
    }
  }

  lemma ToFrontMembers<T>(s: seq<T>, t: T)
    requires NoDup(s) && t in s
    ensures NoDup(ToFront(s, t)) && |ToFront(s, t)| == |s|
    ensures forall x :: x in ToFront(s, t) <==> x in s
  {
    WithoutMembers(s, t);
  }

  // ---------- sublists ----------

  /** a is b with some elements left out. */
  ghost predicate Sublist<T>(a: seq<T>, b: seq<T>) {
    if a == [] then true
    else if b == [] then false
    else if a[0] == b[0] then Sublist(a[1..], b[1..])
    else Sublist(a, b[1..])
  }

  lemma {:induction false} SublistWeaken<T>(a: seq<T>, b: seq<T>)
    requires a != [] && Sublist(a, b)
    ensures Sublist(a[1..], b)
    decreases b
  {
    if a[0] == b[0] {
      if |a| > 1 && a[1] == b[0] {
        SublistWeaken(a[1..], b[1..]);
      } else if |a| > 1 {
        assert Sublist(a[1..], b[1..]);
      }
    } else {
      SublistWeaken(a, b[1..]);
      if |a| > 1 && a[1] == b[0] {
        SublistWeaken(a[1..], b[1..]);
      }
    }
  }

  /** The elements of a appear in b in the same order. */
  lemma {:induction false} SublistOrder<T>(a: seq<T>, b: seq<T>, i: nat, j: nat) returns (p: nat, q: nat)
    requires Sublist(a, b) && i < j < |a|
    ensures p < q < |b| && b[p] == a[i] && b[q] == a[j]
    decreases b
  {
    if a[0] != b[0] {
      p, q := SublistOrder(a, b[1..], i, j);
      p, q := p + 1, q + 1;
    } else if i > 0 {
      p, q := SublistOrder(a[1..], b[1..], i - 1, j - 1);
      p, q := p + 1, q + 1;
    } else {
      SublistMember(a[1..], b[1..], a[1..][j - 1]);
      p := 0;
      var r :| 0 <= r < |b[1..]| && b[1..][r] == a[1..][j - 1];
      q := r + 1;
    }
  }

  lemma {:induction false} SublistMember<T>(a: seq<T>, b: seq<T>, x: T)
    requires Sublist(a, b) && x in a
    ensures x in b
    decreases b
  {
    if a[0] == b[0] {
      if x != a[0] { SublistMember(a[1..], b[1..], x); }
    } else {
      SublistMember(a, b[1..], x);
    }
  }

  lemma {:induction false} SublistLength<T>(a: seq<T>, b: seq<T>)
    requires Sublist(a, b)
    ensures |a| <= |b|
    decreases b
  {
    if a != [] {
      if a[0] == b[0] { SublistLength(a[1..], b[1..]); } else { SublistLength(a, b[1..]); }
    }
  }

  /** Dropping t from the longer list is harmless when the shorter one does not have it. */
  lemma {:induction false} SublistWithoutRight<T>(a: seq<T>, b: seq<T>, t: T)
    requires Sublist(a, b) && t !in a
    ensures Sublist(a, Without(b, t))
    decreases b
  {
    if a != [] {
      var w := Without(b, t);
      if b[0] == t {
      } else if a[0] == b[0] {
        SublistWithoutRight(a[1..], b[1..], t);
        assert w[1..] == Without(b[1..], t);
      } else {
        SublistWithoutRight(a, b[1..], t);
        assert w[1..] == Without(b[1..], t);
      }
    }
  }

  lemma {:induction false} SublistWithoutBoth<T>(a: seq<T>, b: seq<T>, t: T)
    requires Sublist(a, b) && NoDup(a) && NoDup(b)
    ensures Sublist(Without(a, t), Without(b, t))
    decreases b
  {
    if t !in a {
      WithoutAbsent(a, t);
      SublistWithoutRight(a, b, t);
    } else if a[0] == b[0] {
      if a[0] != t {
        SublistWithoutBoth(a[1..], b[1..], t);
        assert Without(a, t)[1..] == Without(a[1..], t);
        assert Without(b, t)[1..] == Without(b[1..], t);
      }
    } else if b[0] == t {
      SublistSkip(a, b[1..], t);
    } else {
      SublistWithoutBoth(a, b[1..], t);
      assert Without(b, t)[1..] == Without(b[1..], t);
      SublistCons(Without(a, t), Without(b, t));
    }
  }

  lemma SublistCons<T>(a: seq<T>, b: seq<T>)
    requires b != [] && Sublist(a, b[1..])
    ensures Sublist(a, b)
  {
    if a != [] && a[0] == b[0] { SublistWeaken(a, b[1..]); }
  }

  lemma {:induction false} SublistSkip<T>(a: seq<T>, b: seq<T>, t: T)
    requires Sublist(a, b)
    ensures Sublist(Without(a, t), b)
    decreases b
  {
    if a != [] {
      if a[0] == t {
        SublistWeaken(a, b);
      } else if a[0] == b[0] {
        SublistSkip(a[1..], b[1..], t);
        assert Without(a, t)[1..] == Without(a[1..], t);
      } else {
        SublistSkip(a, b[1..], t);
        SublistCons(Without(a, t), b);
      }
    }
  }

  /** Cutting the last element off both lists, or off the shorter only. */
  lemma {:induction false} SublistCut<T>(a: seq<T>, b: seq<T>)
    requires a != [] && Sublist(a, b)
    ensures b != [] && Sublist(a[..|a| - 1], b[..|b| - 1])
    decreases b
  {
    if |a| == 1 {
    } else if a[0] == b[0] {
      SublistCut(a[1..], b[1..]);
      assert a[..|a| - 1][1..] == a[1..][..|a| - 2];
      assert b[..|b| - 1][1..] == b[1..][..|b| - 2];
    } else {
      SublistCut(a, b[1..]);
      assert b[..|b| - 1][1..] == b[1..][..|b| - 2];
    }
  }

  lemma {:induction false} SublistAppend<T>(a: seq<T>, b: seq<T>, x: T)
    requires Sublist(a, b)
    ensures Sublist(a, b + [x])
    decreases b
  {
    if a != [] {
      assert (b + [x])[1..] == b[1..] + [x];
      if a[0] == b[0] { SublistAppend(a[1..], b[1..], x); } else { SublistAppend(a, b[1..], x); }
    }
  }
}
