/** Integers in memory and core/byteswap.h: what a source holds does not depend on the
    byte order of the machine. */
module ByteOrder {

  import opened Lists

  type Byte = b: int | 0 <= b < 256

  datatype Order = BE | LE

  function Zeros(n: nat): (z: seq<Byte>)
    ensures |z| == n && forall i :: 0 <= i < n ==> z[i] == 0
  {
    seq(n, _ => 0)
  }

  function Pow256(k: nat): (p: nat)
    ensures p > 0
  {
    if k == 0 then 1 else 256 * Pow256(k - 1)
  }

  // The k bytes of v, the least significant first
  function Little(v: nat, k: nat): (r: seq<Byte>)
    ensures |r| == k
  {
    if k == 0 then [] else [v % 256] + Little(v / 256, k - 1)
  }

  function LittleValue(s: seq<Byte>): nat {
    if s == [] then 0 else s[0] + 256 * LittleValue(s[1..])
  }

  function Bytes(o: Order, v: nat, k: nat): (r: seq<Byte>)
    ensures |r| == k
  {
    if o == LE then Little(v, k) else Reversed(Little(v, k))
  }

  function Value(o: Order, s: seq<Byte>): nat {
    LittleValue(if o == LE then s else Reversed(s))
  }

  lemma {:induction false} LittleReadsBack(v: nat, k: nat)
    requires v < Pow256(k)
    ensures LittleValue(Little(v, k)) == v
  {
    if k > 0 {
      LittleReadsBack(v / 256, k - 1);
      assert Little(v, k)[1..] == Little(v / 256, k - 1);
    }
  }

  lemma {:induction false} ReversedTwice(s: seq<Byte>)
    ensures Reversed(Reversed(s)) == s
  {
    if s != [] {
      ReversedTwice(s[1..]);
      ReversedLast(Reversed(s[1..]), s[0]);
    }
  }

  lemma {:induction false} ReversedLast(s: seq<Byte>, b: Byte)
    ensures Reversed(s + [b]) == [b] + Reversed(s)
  {
    if s == [] {
      assert [] + [b] == [b] && [b][1..] == [];
      assert Reversed([b]) == Reversed([]) + [b];
    } else {
      assert (s + [b])[1..] == s[1..] + [b];
      ReversedLast(s[1..], b);
    }
  }

  // In either order the bytes read back to the number.
  lemma ReadsBack(o: Order, v: nat, k: nat)
    requires v < Pow256(k)
    ensures Value(o, Bytes(o, v, k)) == v
  {
    LittleReadsBack(v, k);
    ReversedTwice(Little(v, k));
  }

  lemma {:induction false} LittleBound(s: seq<Byte>)
    ensures LittleValue(s) < Pow256(|s|)
  {
    if s != [] {
      LittleBound(s[1..]);
    }
  }

  // ---- What the bytes weigh ----

  // The bytes of d are the digits of v to the base 256: the most significant one first in the
  // order BE, and last in the order LE.
  ghost predicate Weighs(d: seq<Byte>, o: Order, v: nat) {
    forall i :: 0 <= i < |d| ==> d[i] == v / Pow256(if o == BE then |d| - 1 - i else i) % 256
  }

  lemma DividedTwice(v: nat, m: nat)
    requires m > 0
    ensures v / 256 / m == v / (256 * m)
  {
    var q, r := v / 256 / m, v / 256 % m;
    var x := 256 * r + v % 256;
    assert v / 256 == q * m + r;
    assert v == q * (256 * m) + x;
    assert x < 256 * m by { assert r + 1 <= m; }
    Divided(v, 256 * m, q, x);
  }

  lemma {:induction false} LittleAt(v: nat, k: nat, i: nat)
    requires i < k
    ensures Little(v, k)[i] == v / Pow256(i) % 256
  {
    if i > 0 {
      LittleAt(v / 256, k - 1, i - 1);
      DividedTwice(v, Pow256(i - 1));
    }
  }

  lemma {:induction false} ReversedByte(s: seq<Byte>, i: nat)
    requires i < |s|
    ensures Reversed(s)[i] == s[|s| - 1 - i]
  {
    if i < |s| - 1 { ReversedByte(s[1..], i); }
  }

  lemma BytesWeigh(o: Order, v: nat, k: nat)
    ensures Weighs(Bytes(o, v, k), o, v)
  {
    var d := Bytes(o, v, k);
    forall i | 0 <= i < k
      ensures d[i] == v / Pow256(if o == BE then k - 1 - i else i) % 256
    {
      if o == BE {
        ReversedByte(Little(v, k), i);
        LittleAt(v, k, k - 1 - i);
      } else {
        LittleAt(v, k, i);
      }
    }
  }

  // The value of bytes is the one number within their range that they weigh.
  lemma ValueWeighs(o: Order, d: seq<Byte>)
    ensures Weighs(d, o, Value(o, d)) && Value(o, d) < Pow256(|d|)
  {
    var s := if o == LE then d else Reversed(d);
    LittleBound(s);
    LittleOf(s);
    ReversedTwice(d);
    BytesWeigh(o, Value(o, d), |d|);
  }

  lemma SameValue(o: Order, a: seq<Byte>, b: seq<Byte>)
    requires |a| == |b|
    ensures Value(o, a) == Value(o, b) ==> a == b
  {
    LittleOf(if o == LE then a else Reversed(a));
    LittleOf(if o == LE then b else Reversed(b));
    ReversedTwice(a);
    ReversedTwice(b);
  }

  lemma Value4(o: Order, d: seq<Byte>)
    requires |d| == 4
    ensures Value(o, d) ==
      if o == BE then d[0] as int * 0x100_0000 + d[1] as int * 0x1_0000 + d[2] as int * 0x100 + d[3] as int
      else d[0] as int + d[1] as int * 0x100 + d[2] as int * 0x1_0000 + d[3] as int * 0x100_0000
  {
    Little4(d, d[0], d[1], d[2], d[3]);
    Little4(Reversed(d), d[3], d[2], d[1], d[0]);
  }

  // ---- byteswap.h ----

  // (x<<8)|(x>>8) on 16 bits
  function Swap16(x: nat): nat
    requires x < 0x1_0000
  {
    x * 0x100 % 0x1_0000 + x / 0x100
  }

  // (x<<24) | ((x<<8)&0x00FF0000) | ((x>>8)&0x0000FF00) | (x>>24) on 32 bits
  function Swap32(x: nat): nat
    requires x < 0x1_0000_0000
  {
    x * 0x100_0000 % 0x1_0000_0000 + (x / 0x100 % 0x100) * 0x1_0000 + (x / 0x1_0000 % 0x100) * 0x100 + x / 0x100_0000
  }

  function Swap(x: nat, k: nat): nat
    requires (k == 1 || k == 2 || k == 4 || k == 8) && x < Pow256(k)
  {
    if k == 1 then x
    else if k == 2 then Swap16(x)
    else if k == 4 then assert Pow256(4) == 0x1_0000_0000; Swap32(x)
    else Swap64(x)
  }

  function Swap64(x: nat): nat
    requires x < Pow256(8)
  {
    assert Pow256(8) == 0x1_0000_0000_0000_0000;
    Swap32(x % 0x1_0000_0000) * 0x1_0000_0000 + Swap32(x / 0x1_0000_0000)
  }

  lemma {:induction false} LittleOf(s: seq<Byte>)
    ensures Little(LittleValue(s), |s|) == s
  {
    if s != [] {
      LittleOf(s[1..]);
    }
  }

  lemma {:induction false} LittleConcat(a: seq<Byte>, b: seq<Byte>)
    ensures LittleValue(a + b) == LittleValue(a) + Pow256(|a|) * LittleValue(b)
  {
    if a == [] {
      assert a + b == b;
    } else {
      assert (a + b)[0] == a[0] && (a + b)[1..] == a[1..] + b;
      LittleConcat(a[1..], b);
      TimesTwice(256, Pow256(|a| - 1), LittleValue(b));
    }
  }

  lemma TimesTwice(a: nat, b: nat, c: nat)
    ensures a * (b * c) == (a * b) * c
  {
  }

  lemma Little4(b: seq<Byte>, b0: int, b1: int, b2: int, b3: int)
    requires |b| == 4 && b[0] == b0 && b[1] == b1 && b[2] == b2 && b[3] == b3
    ensures LittleValue(b) == b0 + 0x100 * b1 + 0x1_0000 * b2 + 0x100_0000 * b3
    ensures Reversed(b) == [b[3], b[2], b[1], b[0]]
  {
    assert b[1..][1..] == b[2..] && b[2..][1..] == b[3..] && b[3..][1..] == [];
    assert LittleValue(b[3..]) == b3 && LittleValue(b[2..]) == b2 + 256 * b3;
    assert Reversed(b[3..]) == [b[3]] && Reversed(b[2..]) == [b[3], b[2]] && Reversed(b[1..]) == [b[3], b[2], b[1]];
  }

  lemma {:induction false} AtLeastOnce(m: int, d: int)
    requires m > 0 && d > 0
    ensures m * d >= m
    decreases d
  {
    if d > 1 {
      AtLeastOnce(m, d - 1);
    }
  }

  lemma Differ(m: int, a: int, b: int)
    ensures m * a - m * b == m * (a - b)
  {
  }

  lemma Divided(x: int, m: int, q: int, r: int)
    requires 0 <= r < m && x == q * m + r
    ensures x / m == q && x % m == r
  {
    var d := x / m - q;
    Differ(m, x / m, q);
    assert m * d == r - x % m;
    if d > 0 {
      AtLeastOnce(m, d);
    } else if d < 0 {
      AtLeastOnce(m, -d);
      Differ(m, 0, d);
    }
  }

  lemma Swap32Digits(b0: int, b1: int, b2: int, b3: int)
    requires 0 <= b0 < 256 && 0 <= b1 < 256 && 0 <= b2 < 256 && 0 <= b3 < 256
    ensures Swap32(b0 + 0x100 * b1 + 0x1_0000 * b2 + 0x100_0000 * b3) ==
      b3 + 0x100 * b2 + 0x1_0000 * b1 + 0x100_0000 * b0
  {
    var x := b0 + 0x100 * b1 + 0x1_0000 * b2 + 0x100_0000 * b3;
    Divided(x, 0x100, b1 + 0x100 * b2 + 0x1_0000 * b3, b0);
    Divided(b1 + 0x100 * b2 + 0x1_0000 * b3, 0x100, b2 + 0x100 * b3, b1);
    Divided(x, 0x1_0000, b2 + 0x100 * b3, b0 + 0x100 * b1);
    Divided(b2 + 0x100 * b3, 0x100, b3, b2);
    Divided(x, 0x100_0000, b3, b0 + 0x100 * b1 + 0x1_0000 * b2);
    Divided(x * 0x100_0000, 0x1_0000_0000, b1 + 0x100 * b2 + 0x1_0000 * b3, b0 * 0x100_0000);
  }

  lemma Swap32Value(b: seq<Byte>)
    requires |b| == 4
    ensures LittleValue(b) < 0x1_0000_0000 && Swap32(LittleValue(b)) == LittleValue(Reversed(b))
  {
    Little4(b, b[0], b[1], b[2], b[3]);
    Swap32Digits(b[0], b[1], b[2], b[3]);
    Little4(Reversed(b), b[3], b[2], b[1], b[0]);
  }

  lemma Swap16Value(b: seq<Byte>)
    requires |b| == 2
    ensures LittleValue(b) < 0x1_0000 && Swap16(LittleValue(b)) == LittleValue(Reversed(b))
  {
    Little2(b);
    Swap16Digits(b[0], b[1]);
    assert Reversed(b[1..]) == [b[1]] && Reversed(b) == [b[1], b[0]];
    Little2(Reversed(b));
  }

  lemma Little2(b: seq<Byte>)
    requires |b| == 2
    ensures LittleValue(b) == b[0] as int + 256 * (b[1] as int)
  {
    assert b[1..][1..] == [] && LittleValue(b[1..]) == b[1];
  }

  lemma Swap16Digits(b0: int, b1: int)
    requires 0 <= b0 < 256 && 0 <= b1 < 256
    ensures Swap16(b0 + 256 * b1) == b1 + 256 * b0
  {
    Divided((b0 + 256 * b1) * 0x100, 0x1_0000, b1, b0 * 0x100);
    Divided(b0 + 256 * b1, 0x100, b1, b0);
  }

  lemma Swap64Value(b: seq<Byte>)
    requires |b| == 8
    ensures LittleValue(b) < Pow256(8) && Swap64(LittleValue(b)) == LittleValue(Reversed(b))
  {
    LittleBound(b);
    var lo, hi := b[..4], b[4..];
    var x, y: int, z: int := LittleValue(b), LittleValue(lo), LittleValue(hi);
    assert b == lo + hi;
    Swap32Value(lo);
    Swap32Value(hi);
    Halves(lo, hi);
    Divided(x, 0x1_0000_0000, z, y);
    ReversedConcat(lo, hi);
    Halves(Reversed(hi), Reversed(lo));
  }

  lemma Halves(lo: seq<Byte>, hi: seq<Byte>)
    requires |lo| == 4
    ensures LittleValue(lo + hi) == LittleValue(lo) + 0x1_0000_0000 * LittleValue(hi)
  {
    LittleConcat(lo, hi);
    assert Pow256(4) == 0x1_0000_0000;
  }

  // Swapping reverses the bytes in memory.
  lemma SwapReverses(x: nat, k: nat)
    requires (k == 1 || k == 2 || k == 4 || k == 8) && x < Pow256(k)
    ensures Little(Swap(x, k), k) == Reversed(Little(x, k))
  {
    var b := Little(x, k);
    LittleReadsBack(x, k);
    if k == 1 {
      assert b[1..] == [] && Reversed(b) == b;
    } else if k == 2 {
      Swap16Value(b);
    } else if k == 4 {
      Swap32Value(b);
    } else {
      Swap64Value(b);
    }
    LittleOf(Reversed(b));
  }

  // The value a write function stores in memory (AG_SwapBE, AG_SwapLE): swapped unless the
  // machine has the byte order of the source already.
  function Stored(host: Order, o: Order, x: nat, k: nat): nat
    requires (k == 1 || k == 2 || k == 4 || k == 8) && x < Pow256(k)
  {
    if host == o then x else Swap(x, k)
  }

  // So the bytes are the same on every machine.
  lemma HostIndependent(host: Order, o: Order, x: nat, k: nat)
    requires (k == 1 || k == 2 || k == 4 || k == 8) && x < Pow256(k)
    ensures Bytes(host, Stored(host, o, x, k), k) == Bytes(o, x, k)
  {
    SwapReverses(x, k);
    ReversedTwice(Little(x, k));
  }

  // Reading what is stored and swapping it likewise gives the value in the source's order.
  lemma StoredValue(host: Order, o: Order, s: seq<Byte>)
    requires |s| == 1 || |s| == 2 || |s| == 4 || |s| == 8
    ensures Value(host, s) < Pow256(|s|) && Stored(host, o, Value(host, s), |s|) == Value(o, s)
  {
    var b := if host == LE then s else Reversed(s);
    LittleBound(b);
    ReversedTwice(s);
    if |s| == 1 {
      assert s[1..] == [] && Reversed(s) == s;
    } else if |s| == 2 {
      Swap16Value(b);
    } else if |s| == 4 {
      Swap32Value(b);
    } else {
      Swap64Value(b);
    }
  }
}
