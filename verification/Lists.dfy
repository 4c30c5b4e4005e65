/** Sequences as the contents of the linked lists and tail queues of core/queue.h. */
module Lists {

  predicate Distinct<T(==)>(s: seq<T>) {
    forall i, j :: 0 <= i < j < |s| ==> s[i] != s[j]
  }

  function InsertAt<T>(s: seq<T>, i: nat, e: T): seq<T>
    requires i <= |s|
  {
    s[..i] + [e] + s[i..]
  }

  function RemoveAt<T>(s: seq<T>, i: nat): seq<T>
    requires i < |s|
  {
    s[..i] + s[i + 1..]
  }

  lemma InsertedAt<T>(s: seq<T>, i: nat, e: T, k: nat)
    requires i <= |s| && k <= |s|
    ensures InsertAt(s, i, e)[k] == if k < i then s[k] else if k == i then e else s[k - 1]
  {
  }

  lemma DistinctInsert<T>(s: seq<T>, i: nat, e: T)
    requires i <= |s| && Distinct(s) && e !in s
    ensures Distinct(InsertAt(s, i, e))
    ensures forall k :: 0 <= k < |s| ==> s[k] != e
    ensures forall x :: x in InsertAt(s, i, e) <==> x in s || x == e
  {
    var u := InsertAt(s, i, e);
    forall a, b | 0 <= a < b < |u| ensures u[a] != u[b] {
      InsertedAt(s, i, e, a);
      InsertedAt(s, i, e, b);
    }
    forall x | x in s ensures x in u {
      var k :| 0 <= k < |s| && s[k] == x;
      assert u[if k < i then k else k + 1] == x;
    }
    assert u[i] == e;
  }

  lemma DistinctRemove<T>(s: seq<T>, i: nat)
    requires i < |s| && Distinct(s)
    ensures Distinct(RemoveAt(s, i)) && s[i] !in RemoveAt(s, i)
    ensures forall x :: x in RemoveAt(s, i) <==> x in s && x != s[i]
  {
    var u := RemoveAt(s, i);
    forall a | 0 <= a < |u| ensures u[a] == s[if a < i then a else a + 1] {}
    forall x | x in s && x != s[i] ensures x in u {
      var k :| 0 <= k < |s| && s[k] == x;
      assert u[if k < i then k else k - 1] == x;
    }
  }

  lemma DistinctConcat<T>(a: seq<T>, b: seq<T>)
    requires Distinct(a) && Distinct(b) && forall x :: x in a ==> x !in b
    ensures Distinct(a + b)
  {
    var s := a + b;
    forall i, j | 0 <= i < j < |s|
      ensures s[i] != s[j]
    {
      if i < |a| <= j {
        assert s[i] in a && s[j] in b;
      }
    }
  }

  lemma Appended<T>(s: seq<T>, x: T)
    requires Distinct(s) && x !in s
    ensures Distinct(s + [x]) && forall y :: y in s + [x] <==> y in s || y == x
  {
  }

  // s without the first x
  function Dropped<T(==)>(s: seq<T>, x: T): (r: seq<T>)
    ensures forall y :: y in r ==> y in s
    ensures forall y :: y in s && y != x ==> y in r
    ensures Distinct(s) ==> Distinct(r) && x !in r
    ensures x !in s ==> r == s
    ensures x in s ==> |r| == |s| - 1
  {
    if s == [] then s
    else
      assert Distinct(s) ==> Distinct(s[1..]) && s[0] !in s[1..];
      if s[0] == x then s[1..] else [s[0]] + Dropped(s[1..], x)
  }

  lemma {:induction false} DroppedAt<T>(s: seq<T>, i: nat, x: T)
    requires i < |s| && s[i] == x && x !in s[..i]
    ensures Dropped(s, x) == RemoveAt(s, i)
  {
    if i > 0 {
      assert s[0] in s[..i] && s[0] != x;
      assert s[1..][..i - 1] == s[1..i] == s[..i][1..];
      DroppedAt(s[1..], i - 1, x);
      assert RemoveAt(s, i) == [s[0]] + RemoveAt(s[1..], i - 1);
    }
  }

  lemma {:induction false} DroppedLast<T>(s: seq<T>, x: T)
    requires x !in s
    ensures Dropped(s + [x], x) == s
  {
    DroppedAt(s + [x], |s|, x);
  }

  // What comes after the first x: TAILQ_NEXT is the head of it.
  function After<T(==)>(s: seq<T>, x: T): seq<T> {
    if s == [] then s else if s[0] == x then s[1..] else After(s[1..], x)
  }

  lemma {:induction false} AfterAt<T>(s: seq<T>, i: nat)
    requires i < |s| && Distinct(s)
    ensures After(s, s[i]) == s[i + 1..]
  {
    if i > 0 {
      AfterAt(s[1..], i - 1);
      assert s[1..][i - 1] == s[i] && s[1..][i..] == s[i + 1..];
    }
  }

  // The elements of s that are in p, in the order of s
  function Filter<T(==)>(s: seq<T>, p: set<T>): seq<T> {
    if s == [] then [] else (if s[0] in p then [s[0]] else []) + Filter(s[1..], p)
  }

  lemma {:induction false} FilterConcat<T>(a: seq<T>, b: seq<T>, p: set<T>)
    ensures Filter(a + b, p) == Filter(a, p) + Filter(b, p)
  {
    if a == [] {
      assert a + b == b;
    } else {
      assert (a + b)[1..] == a[1..] + b;
      FilterConcat(a[1..], b, p);
      Assoc(if a[0] in p then [a[0]] else [], Filter(a[1..], p), Filter(b, p));
    }
  }

  lemma {:induction false} FilterSame<T>(s: seq<T>, p: set<T>, q: set<T>)
    requires forall x :: x in s ==> (x in p <==> x in q)
    ensures Filter(s, p) == Filter(s, q)
  {
    if s != [] {
      FilterSame(s[1..], p, q);
    }
  }

  lemma Assoc<T>(a: seq<T>, b: seq<T>, c: seq<T>)
    ensures (a + b) + c == a + (b + c)
  {
  }

  function Reversed<T>(s: seq<T>): (r: seq<T>)
    ensures |r| == |s|
  {
    if s == [] then [] else Reversed(s[1..]) + [s[0]]
  }

  lemma {:induction false} ReversedConcat<T>(a: seq<T>, b: seq<T>)
    ensures Reversed(a + b) == Reversed(b) + Reversed(a)
  {
    if a == [] {
      assert a + b == b;
    } else {
      assert (a + b)[1..] == a[1..] + b;
      ReversedConcat(a[1..], b);
    }
  }

  lemma {:induction false} FilterNone<T>(s: seq<T>, p: set<T>)
    requires forall x :: x in s ==> x !in p
    ensures Filter(s, p) == []
  {
    if s != [] {
      FilterNone(s[1..], p);
    }
  }

  lemma FilterAround<T>(a: seq<T>, x: T, b: seq<T>, p: set<T>)
    ensures Filter(a + [x] + b, p) == Filter(a, p) + (if x in p then [x] else []) + Filter(b, p)
  {
    FilterConcat(a + [x], b, p);
    FilterConcat(a, [x], p);
  }

  lemma FilterWithout<T>(a: seq<T>, x: T, b: seq<T>, p: set<T>)
    requires x !in p
    ensures Filter(a + [x] + b, p) == Filter(a + b, p)
  {
    FilterAround(a, x, b, p);
    FilterConcat(a, b, p);
    assert Filter(a, p) + [] == Filter(a, p);
  }

  lemma FilterInsert<T>(s: seq<T>, k: nat, x: T, p: set<T>)
    requires k <= |s| && x !in p
    ensures Filter(InsertAt(s, k, x), p) == Filter(s, p)
  {
    FilterWithout(s[..k], x, s[k..], p);
    assert s[..k] + s[k..] == s;
  }

  // Taking the first element that is in p out of both
  lemma FilterFirst<T>(a: seq<T>, x: T, b: seq<T>, p: set<T>)
    requires x in p && x !in b && forall y :: y in a ==> y !in p
    ensures Filter(a + [x] + b, p) == [x] + Filter(a + b, p - {x})
  {
    FilterAround(a, x, b, p);
    FilterConcat(a, b, p - {x});
    FilterNone(a, p);
    FilterNone(a, p - {x});
    FilterSame(b, p, p - {x});
    var r := Filter(b, p);
    assert [] + [x] + r == [x] + ([] + r);
  }

  lemma {:induction false} FilterHas<T>(s: seq<T>, p: set<T>, x: T)
    ensures x in Filter(s, p) <==> x in s && x in p
  {
    if s != [] {
      FilterHas(s[1..], p, x);
    }
  }

  lemma {:induction false} FilterDistinct<T>(s: seq<T>, p: set<T>)
    requires Distinct(s)
    ensures Distinct(Filter(s, p))
  {
    if s != [] {
      FilterDistinct(s[1..], p);
      FilterHas(s[1..], p, s[0]);
    }
  }
}
