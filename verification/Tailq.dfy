/** The tail queues of core/queue.h on linked elements, and the insertion loop of
    AG_AddTimer (core/timeout.c) on them. */
module Tailq {

  import opened Lists

  // A timer as an element of a tail queue.  tqe_prev points to the next field of the
  // element before; here `prev` is that element, and null stands for the head's field.
  class Entry {
    var tSched: int
    var next: Entry?
    var prev: Entry?

    constructor (tSched: int)
      ensures this.tSched == tSched
    {
      this.tSched := tSched;
      next, prev := null, null;
    }
  }

  function At(s: seq<Entry>, i: int): Entry? {
    if 0 <= i < |s| then s[i] else null
  }

  class Head {
    var first: Entry?
    var last: Entry?  // whose next field tqh_last points to; null stands for the head's

    constructor ()
      ensures IsList([])
    {
      first, last := null, null;
    }

    // Going along the next fields visits s and then stops.
    ghost predicate IsChain(s: seq<Entry>)
      reads this, s
    {
      first == At(s, 0) && forall i {:trigger s[i].next} :: 0 <= i < |s| ==> s[i].next == At(s, i + 1)
    }

    ghost predicate IsList(s: seq<Entry>)
      reads this, s
    {
      && IsChain(s)
      && (forall i {:trigger s[i].prev} :: 0 <= i < |s| ==> s[i].prev == At(s, i - 1))
      && last == At(s, |s| - 1)
      && Distinct(s)
    }

    // *(p) = elm, for a p taken from a tqe_prev or from tqh_last
    method Store(p: Entry?, elm: Entry?)
      modifies (if p == null then {this} else {})`first, (if p == null then {} else {p})`next
      ensures if p == null then first == elm else p.next == elm
    {
      if p == null {
        first := elm;
      } else {
        p.next := elm;
      }
    }

    // AG_TAILQ_INSERT_TAIL
    method InsertTail(elm: Entry, ghost s: seq<Entry>)
      requires IsList(s) && elm !in s
      modifies this, s`next, s`prev, elm`next, elm`prev
      ensures IsList(s + [elm])
    {
      elm.next := null;
      elm.prev := last;
      Store(last, elm);
      last := elm;
    }

    // AG_TAILQ_INSERT_BEFORE: the assignments of the macro.
    method PutBefore(listelm: Entry, elm: Entry)
      requires listelm != elm
      modifies this`first, (if listelm.prev == null then {} else {listelm.prev})`next
      modifies elm`next, elm`prev, listelm`prev
      ensures elm.prev == old(listelm.prev) && elm.next == (if old(listelm.prev) == elm then elm else listelm)
      ensures if old(listelm.prev) == null then first == elm else first == old(first) && old(listelm.prev).next == elm
      ensures listelm.prev == elm
    {
      elm.prev := listelm.prev;
      elm.next := listelm;
      Store(listelm.prev, elm);
      listelm.prev := elm;
    }

    // AG_TAILQ_REMOVE
    method Remove(elm: Entry, ghost s: seq<Entry>, ghost i: nat)
      requires IsList(s) && i < |s| && s[i] == elm
      modifies this, s`next, s`prev
      ensures IsList(RemoveAt(s, i))
    {
      DistinctRemove(s, i);
      if elm.next != null {
        elm.next.prev := elm.prev;
      } else {
        last := elm.prev;
      }
      Store(elm.prev, elm.next);
    }

    // ---- The insertion loop of AG_AddTimer in ordered mode (core/timeout.c:94-108) ----

    // The scan: stops at `to` itself or at the first timer scheduled later than it.
    method Scan(to: Entry, ghost s: seq<Entry>) returns (toOther: Entry?, ghost i: nat)
      requires IsList(s)
      ensures i <= |s| && toOther == At(s, i)
      ensures forall k :: 0 <= k < i ==> s[k] != to && s[k].tSched <= to.tSched
      ensures i < |s| ==> s[i] == to || to.tSched < s[i].tSched
    {
      toOther, i := first, 0;
      while toOther != null && toOther != to && toOther.tSched <= to.tSched
        invariant i <= |s| && toOther == At(s, i)
        invariant forall k :: 0 <= k < i ==> s[k] != to && s[k].tSched <= to.tSched
        decreases |s| - i
      {
        toOther := toOther.next;
        i := i + 1;
      }
    }

    // The scan with its jump back: a timer met in its own queue is taken out first.
    method Locate(to: Entry, ghost s: seq<Entry>, ghost p: nat)
      returns (toOther: Entry?, ghost cur: seq<Entry>, ghost k: nat)
      requires IsList(s) && p <= |s| && if p < |s| then s[p] == to else to !in s
      modifies this, s`next, s`prev
      ensures cur == if old(NoneLater(s, p, to.tSched)) then Without(s, p) else s
      ensures IsList(cur) && k <= |cur| && toOther == At(cur, k)
      ensures to !in cur ==> old(NoneLater(s, p, to.tSched)) && Belongs(cur, k, to.tSched)
      ensures to in cur ==> !old(NoneLater(s, p, to.tSched)) && k < p
    {
      cur := s;
      toOther, k := Scan(to, s);
      if toOther == to {
        DistinctRemove(s, k);
        assert k == p;
        Remove(to, s, k);
        cur := RemoveAt(s, k);
        toOther, k := Scan(to, cur);  // goto reinsert
      }
    }

    // The loop for a timer `to` whose tSched has just been set.  p is the position of `to`
    // if it is already queued, and |s| if it is not.  The queue stays a list exactly when
    // no timer ahead of `to` is scheduled later than its new time; otherwise `to` is linked
    // in twice and the next fields run in a circle.
    method Place(to: Entry, ghost s: seq<Entry>, ghost p: nat) returns (ghost rest: seq<Entry>, ghost k: nat)
      requires IsList(s) && p <= |s| && if p < |s| then s[p] == to else to !in s
      modifies this, s`next, s`prev, to`next, to`prev
      ensures old(NoneLater(s, p, to.tSched)) ==>
        rest == Without(s, p) && Belongs(rest, k, to.tSched) && IsList(InsertAt(rest, k, to))
      ensures !old(NoneLater(s, p, to.tSched)) ==> forall u: seq<Entry> :: !IsChain(u)
    {
      var toOther: Entry?;
      toOther, rest, k := Locate(to, s, p);
      LinkIn(toOther, to, rest, k, p);
    }

    method LinkIn(toOther: Entry?, to: Entry, ghost s: seq<Entry>, ghost i: nat, ghost p: nat)
      requires IsList(s) && i <= |s| && toOther == At(s, i)
      requires to in s ==> i < p < |s| && s[p] == to
      modifies this, s`next, s`prev, to`next, to`prev
      ensures to !in s ==> IsList(InsertAt(s, i, to))
      ensures to in s ==> forall u: seq<Entry> :: !IsChain(u)
    {
      if toOther != null {
        LinkBefore(toOther, to, s, i, p);
      } else {
        assert s + [to] == InsertAt(s, i, to);
        InsertTail(to, s);
      }
    }

    // The links that PutBefore leaves when it puts elm before s[i] in a list s
    ghost predicate Spliced(s: seq<Entry>, i: nat, elm: Entry)
      requires i < |s|
      reads this, s, elm
    {
      && elm.next == s[i] && elm.prev == At(s, i - 1)
      && first == (if i == 0 then elm else At(s, 0)) && last == At(s, |s| - 1)
      && (forall k {:trigger s[k].next} :: 0 <= k < |s| && s[k] != elm ==>
        s[k].next == if k == i - 1 then elm else At(s, k + 1))
      && (forall k {:trigger s[k].prev} :: 0 <= k < |s| && s[k] != elm ==>
        s[k].prev == if k == i then elm else At(s, k - 1))
    }

    // The macro does what its name says for an element that is not in the queue.  For an
    // element still linked at a later position p the next fields no longer come to an end.
    lemma SplicedIn(s: seq<Entry>, i: nat, p: nat, elm: Entry)
      requires Distinct(s) && i < |s| && Spliced(s, i, elm)
      requires elm in s ==> i < p < |s| && s[p] == elm
      ensures elm !in s ==> IsList(InsertAt(s, i, elm))
      ensures elm in s ==> forall u: seq<Entry> :: !IsChain(u)
    {
      if elm !in s {
        DistinctInsert(s, i, elm);
        var u := InsertAt(s, i, elm);
        forall k | 0 <= k < |u|
          ensures u[k].next == At(u, k + 1) && u[k].prev == At(u, k - 1)
        {
          if k != i {
            assert u[k] == s[if k < i then k else k - 1];
          }
        }
      } else {
        var w := s[..i] + [elm] + s[i..p];
        forall k | 0 <= k < |w|
          ensures w[k].next == if k + 1 < |w| then w[k + 1] else w[i]
        {
          if k != i {
            assert w[k] == s[if k < i then k else k - 1];
          }
        }
        forall u: seq<Entry> ensures !IsChain(u) {
          Circle(w, i, u);
        }
      }
    }

    // Linking in `to` before s[i], when it is not queued or queued at the later position p
    method LinkBefore(toOther: Entry, to: Entry, ghost s: seq<Entry>, ghost i: nat, ghost p: nat)
      requires IsList(s) && i < |s| && s[i] == toOther
      requires to in s ==> i < p < |s| && s[p] == to
      modifies this, s`next, s`prev, to`next, to`prev
      ensures to !in s ==> IsList(InsertAt(s, i, to))
      ensures to in s ==> forall u: seq<Entry> :: !IsChain(u)
    {
      PutBefore(toOther, to);
      SplicedIn(s, i, p, to);
    }

    // A chain visits nothing twice.
    lemma {:induction false} ChainAdvances(u: seq<Entry>, a: nat, b: nat)
      requires IsChain(u) && a < b < |u|
      ensures u[a] != u[b]
      decreases |u| - b
    {
      if u[a] == u[b] {
        assert u[a].next == At(u, a + 1) && u[b].next == At(u, b + 1);
        if b + 1 < |u| {
          ChainAdvances(u, a + 1, b + 1);
        }
      }
    }

    // If the next fields lead along w and then back into it, they never end.
    lemma Circle(w: seq<Entry>, i: nat, u: seq<Entry>)
      requires i < |w| && first == w[0]
      requires forall k {:trigger w[k].next} :: 0 <= k < |w| ==> w[k].next == if k + 1 < |w| then w[k + 1] else w[i]
      ensures !IsChain(u)
    {
      if IsChain(u) {
        Follows(w, i, u, |w|);
        ChainAdvances(u, i, |w|);
      }
    }

    lemma {:induction false} Follows(w: seq<Entry>, i: nat, u: seq<Entry>, n: nat)
      requires i < |w| && first == w[0] && IsChain(u) && n <= |w|
      requires forall k {:trigger w[k].next} :: 0 <= k < |w| ==> w[k].next == if k + 1 < |w| then w[k + 1] else w[i]
      ensures n < |u| && u[n] == if n < |w| then w[n] else w[i]
      ensures i < n ==> u[i] == w[i]
    {
      if n > 0 {
        Follows(w, i, u, n - 1);
        assert u[n - 1].next == At(u, n) && w[n - 1].next != null;
      }
    }
  }

  // No timer ahead of position p of the queue is scheduled later than t.
  predicate NoneLater(s: seq<Entry>, p: nat, t: int)
    reads s`tSched
  {
    p < |s| ==> forall k :: 0 <= k < p ==> s[k].tSched <= t
  }

  // k is where a timer for time t goes: behind all that are due at t or before.
  predicate Belongs(s: seq<Entry>, k: nat, t: int)
    reads s`tSched
  {
    k <= |s| && (forall i :: 0 <= i < k ==> s[i].tSched <= t) && (k < |s| ==> t < s[k].tSched)
  }

  function Without(s: seq<Entry>, p: nat): seq<Entry> {
    if p < |s| then RemoveAt(s, p) else s
  }

  predicate Sorted(s: seq<Entry>)
    reads s`tSched
  {
    forall i, j :: 0 <= i < j < |s| ==> s[i].tSched <= s[j].tSched
  }

  // In a queue sorted but for `to`, the loop restores the order.
  lemma PlacedSorted(rest: seq<Entry>, k: nat, to: Entry)
    requires Sorted(rest) && Belongs(rest, k, to.tSched)
    ensures Sorted(InsertAt(rest, k, to))
  {
    var u := InsertAt(rest, k, to);
    forall i, j | 0 <= i < j < |u|
      ensures u[i].tSched <= u[j].tSched
    {
      InsertedAt(rest, k, to, i);
      InsertedAt(rest, k, to, j);
    }
  }
}
