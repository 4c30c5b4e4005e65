/** The hash table of core/tbl.c and core/tbl.h.  A bucket's two arrays, which the code
    reallocates, are sequences; an entry holds a value in place of a variable. */
module HashTable {

  import opened Options
  import Words

  datatype Bucket<V> = Bucket(keys: seq<string>, ents: seq<V>)

  // The values entered with a key, in order
  function Values<V>(keys: seq<string>, ents: seq<V>, key: string): (r: seq<V>)
    requires |keys| == |ents|
  {
    if keys == [] then []
    else (if keys[0] == key then [ents[0]] else []) + Values(keys[1..], ents[1..], key)
  }

  lemma ValuesOne<V>(key: string, v: V, keys: seq<string>, ents: seq<V>, k: string)
    requires |keys| == |ents|
    ensures Values([key] + keys, [v] + ents, k) == (if key == k then [v] else []) + Values(keys, ents, k)
  {
    assert ([key] + keys)[1..] == keys && ([v] + ents)[1..] == ents;
  }

  lemma {:induction false} ValuesJoin<V>(keys: seq<string>, ents: seq<V>, ks: seq<string>, es: seq<V>, key: string)
    requires |keys| == |ents| && |ks| == |es|
    ensures Values(keys + ks, ents + es, key) == Values(keys, ents, key) + Values(ks, es, key)
  {
    if keys == [] {
      assert keys + ks == ks && ents + es == es;
    } else {
      hide Values;
      var k, v, ks1, es1 := keys[0], ents[0], keys[1..], ents[1..];
      ValuesJoin(ks1, es1, ks, es, key);
      ValuesOne(k, v, ks1, es1, key);
      ValuesOne(k, v, ks1 + ks, es1 + es, key);
      assert keys == [k] + ks1 && ents == [v] + es1;
      assert keys + ks == [k] + (ks1 + ks) && ents + es == [v] + (es1 + es);
    }
  }

  lemma {:induction false} ValuesNone<V>(keys: seq<string>, ents: seq<V>, key: string)
    requires |keys| == |ents|
    ensures Values(keys, ents, key) == [] <==> key !in keys
  {
    if keys != [] { ValuesNone(keys[1..], ents[1..], key); }
  }

  // Without entry i, which is the first of its key
  lemma ValuesWithout<V>(keys: seq<string>, ents: seq<V>, i: nat, key: string)
    requires i < |keys| == |ents| && keys[i] !in keys[..i]
    ensures key == keys[i] ==> Values(keys, ents, key) != [] && Values(keys, ents, key)[0] == ents[i]
    ensures Values(keys[..i] + keys[i + 1..], ents[..i] + ents[i + 1..], key) ==
            if key == keys[i] then Values(keys, ents, key)[1..] else Values(keys, ents, key)
  {
    hide Values;
    var ks, es := keys[i + 1..], ents[i + 1..];
    assert keys == keys[..i] + ([keys[i]] + ks) && ents == ents[..i] + ([ents[i]] + es);
    ValuesOne(keys[i], ents[i], ks, es, key);
    ValuesJoin(keys[..i], ents[..i], [keys[i]] + ks, [ents[i]] + es, key);
    ValuesJoin(keys[..i], ents[..i], ks, es, key);
    ValuesNone(keys[..i], ents[..i], keys[i]);
  }

  // The sum that AG_TblHash makes
  function Summed(key: string, h: nat): nat {
    if key == [] then h else Summed(key[1..], (31 * h + key[0] as int % 256) % 0x1_0000_0000)
  }

  function Pow31(n: nat): nat {
    if n == 0 then 1 else 31 * Pow31(n - 1)
  }

  // The bytes of the key as digits to the base 31
  function Weight(key: string): nat {
    if key == [] then 0 else (key[0] as int % 256) * Pow31(|key| - 1) + Weight(key[1..])
  }

  // The sum is what is left of that in 32 bits.
  lemma {:induction false} SummedWeight(key: string, h: nat)
    requires h < 0x1_0000_0000
    ensures Summed(key, h) == (h * Pow31(|key|) + Weight(key)) % 0x1_0000_0000
  {
    if key != [] {
      var c, p, w := key[0] as int % 256, Pow31(|key| - 1), Weight(key[1..]);
      var x := 31 * h + c;
      SummedWeight(key[1..], x % 0x1_0000_0000);
      Reduced(x, p, w);
      Times(h, p, c);
    }
  }

  lemma Times(h: nat, p: nat, c: nat)
    ensures h * (31 * p) + c * p == (31 * h + c) * p
  {
  }

  lemma Reduced(x: nat, p: nat, w: nat)
    ensures ((x % 0x1_0000_0000) * p + w) % 0x1_0000_0000 == (x * p + w) % 0x1_0000_0000
  {
    var q, r := x / 0x1_0000_0000, x % 0x1_0000_0000;
    assert x * p + w == (r * p + w) + (q * p) * 0x1_0000_0000 by {
      assert x == q * 0x1_0000_0000 + r;
      assert x * p == (q * 0x1_0000_0000) * p + r * p;
    }
    Words.Wraps(r * p + w, q * p);
  }

  class Tbl<V(==)> {
    const duplicates: bool
    const buckets: array<Bucket<V>>

    // AG_TblInit
    constructor (nBuckets: nat, duplicates: bool)
      requires nBuckets > 0
      ensures Valid() && fresh(buckets) && this.duplicates == duplicates && buckets.Length == nBuckets
      ensures forall key :: Of(key) == []
    {
      this.duplicates := duplicates;
      buckets := new Bucket<V>[nBuckets](_ => Bucket([], []));
    }

    // Every key is in the bucket that its hash selects.
    ghost predicate Valid()
      reads buckets
    {
      && buckets.Length > 0
      && (forall h :: 0 <= h < buckets.Length ==> |buckets[h].keys| == |buckets[h].ents|)
      && (forall h, key :: 0 <= h < buckets.Length && key in buckets[h].keys ==> h == Summed(key, 0) % buckets.Length)
    }

    // The values entered with a key, in order
    ghost function Of(key: string): seq<V>
      reads buckets
      requires Valid()
    {
      var b := buckets[Summed(key, 0) % buckets.Length];
      Values(b.keys, b.ents, key)
    }

    // AG_TblHash
    method Hash(key: string) returns (h: nat)
      requires buckets.Length > 0
      ensures h == Summed(key, 0) % buckets.Length == Weight(key) % 0x1_0000_0000 % buckets.Length
    {
      SummedWeight(key, 0);
      h := 0;
      assert key[0..] == key;
      for p := 0 to |key|
        invariant Summed(key[p..], h) == Summed(key, 0)
      {
        assert key[p..][1..] == key[p + 1..];
        h := (31 * h + key[p] as int % 256) % 0x1_0000_0000;
      }
      assert key[|key|..] == [];
      h := h % buckets.Length;
    }

    // The search of the bucket, in all four functions
    method Search(h: nat, key: string) returns (i: nat)
      requires h < buckets.Length
      ensures i <= |buckets[h].keys| && key !in buckets[h].keys[..i]
      ensures i < |buckets[h].keys| ==> buckets[h].keys[i] == key
    {
      i := 0;
      while i < |buckets[h].keys|
        invariant i <= |buckets[h].keys| && key !in buckets[h].keys[..i]
      {
        if buckets[h].keys[i] == key {
          break;
        }
        i := i + 1;
      }
    }

    // AG_TblLookupHash
    method LookupHash(h: nat, key: string) returns (r: Option<V>)
      requires Valid() && h == Summed(key, 0) % buckets.Length
      ensures r == if Of(key) == [] then None else Some(Of(key)[0])
    {
      var i := Search(h, key);
      var b := buckets[h];
      ValuesNone(b.keys, b.ents, key);
      if i == |b.keys| {
        assert b.keys[..i] == b.keys;
        return None;
      }
      ValuesWithout(b.keys, b.ents, i, key);
      r := Some(b.ents[i]);
    }

    method Lookup(key: string) returns (r: Option<V>)
      requires Valid()
      ensures r == if Of(key) == [] then None else Some(Of(key)[0])
    {
      var h := Hash(key);
      r := LookupHash(h, key);
    }

    // AG_TblExistsHash
    method ExistsHash(h: nat, key: string) returns (r: bool)
      requires Valid() && h == Summed(key, 0) % buckets.Length
      ensures r == (Of(key) != [])
    {
      var i := Search(h, key);
      var b := buckets[h];
      ValuesNone(b.keys, b.ents, key);
      assert i == |b.keys| ==> b.keys[..i] == b.keys;
      r := i < |b.keys|;
    }

    // AG_TblInsertHash
    method InsertHash(h: nat, key: string, v: V) returns (rc: int)
      requires Valid() && h == Summed(key, 0) % buckets.Length
      modifies buckets
      ensures Valid() && rc == if !duplicates && old(Of(key)) != [] then -1 else 0
      ensures forall k :: Of(k) == if rc == 0 && k == key then old(Of(k)) + [v] else old(Of(k))
    {
      var i := Search(h, key);
      var b := buckets[h];
      ValuesNone(b.keys, b.ents, key);
      assert i == |b.keys| ==> b.keys[..i] == b.keys;
      if !duplicates && i < |b.keys| {
        return -1;
      }
      forall k
        ensures Values(b.keys + [key], b.ents + [v], k) == Values(b.keys, b.ents, k) + if k == key then [v] else []
      {
        ValuesJoin(b.keys, b.ents, [key], [v], k);
      }
      buckets[h] := Bucket(b.keys + [key], b.ents + [v]);
      rc := 0;
    }

    method Insert(key: string, v: V) returns (rc: int)
      requires Valid()
      modifies buckets
      ensures Valid() && rc == if !duplicates && old(Of(key)) != [] then -1 else 0
      ensures forall k :: Of(k) == if rc == 0 && k == key then old(Of(k)) + [v] else old(Of(k))
    {
      var h := Hash(key);
      rc := InsertHash(h, key, v);
    }

    // AG_TblDeleteHash
    method DeleteHash(h: nat, key: string) returns (rc: int)
      requires Valid() && h == Summed(key, 0) % buckets.Length
      modifies buckets
      ensures Valid() && rc == if old(Of(key)) == [] then -1 else 0
      ensures forall k :: Of(k) == if rc == 0 && k == key then old(Of(k))[1..] else old(Of(k))
    {
      var i := Search(h, key);
      var b := buckets[h];
      ValuesNone(b.keys, b.ents, key);
      if i == |b.keys| {
        assert b.keys[..i] == b.keys;
        return -1;
      }
      forall k { ValuesWithout(b.keys, b.ents, i, k); }
      buckets[h] := Bucket(b.keys[..i] + b.keys[i + 1..], b.ents[..i] + b.ents[i + 1..]);
      rc := 0;
    }
  }
}
