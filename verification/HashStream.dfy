/** The block fold that the three digests of Agar-Core compute, and their shared context.

    The rounds inside a Transform are not modelled: a digest is given by its transform
    function, its initial state and its byte order. */
module HashStream {

  import opened ByteOrder
  import Lists

  type Word = w: int | 0 <= w < 0x1_0000_0000
  type State = seq<Word>
  type Transform = (State, seq<Byte>) -> State

  const BLOCK: int := 64
  const COUNT_MOD: int := 0x1_0000_0000_0000_0000  // the bit count is a Uint64

  // The state after all whole blocks of m; a last incomplete block is ignored.
  function Fold(f: Transform, s: State, m: seq<Byte>): State
    decreases |m|
  {
    if |m| < BLOCK then s else Fold(f, f(s, m[..BLOCK]), m[BLOCK..])
  }

  // The bytes of the last incomplete block.
  function Leftover(m: seq<Byte>): seq<Byte> {
    m[|m| - |m| % BLOCK..]
  }

  // Byte i of a value, counted from the least significant one.
  function ByteOf(v: nat, i: nat): Byte
  {
    (v / Pow256(i)) % 256
  }

  function LittleEndian(v: nat, n: nat): (b: seq<Byte>)
    ensures |b| == n
  {
    seq(n, i requires 0 <= i < n => ByteOf(v, i))
  }

  function BigEndian(v: nat, n: nat): (b: seq<Byte>)
    ensures |b| == n
  {
    seq(n, i requires 0 <= i < n => ByteOf(v, n - 1 - i))
  }

  // AG_MD5Pad and AG_RMD160Pad count the padding from the end of the block.
  lemma PadLength(n: nat)
    ensures var p := BLOCK - n % BLOCK; (if p < 9 then p + BLOCK else p) == PadZeros(n) + 9
  {
  }

  // How many zero bytes follow the byte 0x80.
  function PadZeros(n: nat): (k: nat)
    ensures k < BLOCK && (n + 1 + k) % BLOCK == 56
  {
    (119 - n % BLOCK) % BLOCK
  }

  // The padded message: a one bit, the least number of zero bits that leaves room for the
  // length in the last block, and the length in bits modulo 2^64 (section 3.1 and 3.2 of
  // RFC 1321, section 4 of RFC 3174).
  function Padded(m: seq<Byte>, big: bool): seq<Byte> {
    m + [0x80] + Zeros(PadZeros(|m|)) + LengthBytes(|m|, big)
  }

  function LengthBytes(n: nat, big: bool): (b: seq<Byte>)
    ensures |b| == 8
  {
    var bits := (8 * n) % COUNT_MOD;
    if big then BigEndian(bits, 8) else LittleEndian(bits, 8)
  }

  function WordBytes(s: State, big: bool): seq<Byte> {
    if s == [] then []
    else (if big then BigEndian(s[0], 4) else LittleEndian(s[0], 4)) + WordBytes(s[1..], big)
  }

  // The transform keeps the number of words of the state.
  ghost predicate Keeps(f: Transform, init: State, n: nat) {
    |init| == n && forall s: State, b: seq<Byte> :: |s| == n ==> |f(s, b)| == n
  }

  // The lower-case hexadecimal form that the End functions write.
  function Hex(d: seq<Byte>): seq<char> {
    if d == [] then [] else [HexDigit(d[0] / 16), HexDigit(d[0] % 16)] + Hex(d[1..])
  }

  function HexDigit(v: int): char
    requires 0 <= v < 16
  {
    "0123456789abcdef"[v]
  }

  // buf spells d in hexadecimal, the high half of each byte first.
  predicate IsHex(buf: seq<char>, d: seq<Byte>) {
    |buf| == 2 * |d| && forall i :: 0 <= i < |d| ==>
      IsHexDigit(buf[2 * i], d[i] / 16) && IsHexDigit(buf[2 * i + 1], d[i] % 16)
  }

  predicate IsHexDigit(c: char, v: int) {
    if v < 10 then '0' <= c <= '9' && c as int == '0' as int + v
    else 'a' <= c <= 'f' && c as int == 'a' as int + (v - 10)
  }

  lemma HexDigitIs(v: int)
    requires 0 <= v < 16
    ensures IsHexDigit(HexDigit(v), v)
  {
  }

  lemma {:induction false} HexIs(d: seq<Byte>)
    ensures IsHex(Hex(d), d)
  {
    hide HexDigit, IsHexDigit;
    if d != [] {
      var h, t := Hex(d), Hex(d[1..]);
      HexDigitIs(d[0] / 16);
      HexDigitIs(d[0] % 16);
      HexIs(d[1..]);
      forall i | 0 < i < |d|
        ensures IsHexDigit(h[2 * i], d[i] / 16) && IsHexDigit(h[2 * i + 1], d[i] % 16)
      {
        assert h[2 * i] == t[2 * (i - 1)] && h[2 * i + 1] == t[2 * (i - 1) + 1] && d[i] == d[1..][i - 1];
      }
    }
  }

  // What the chunks of a file spell together.
  function Flatten(chunks: seq<seq<Byte>>): seq<Byte> {
    if chunks == [] then [] else chunks[0] + Flatten(chunks[1..])
  }

  // The digest of a message.
  function Digest(f: Transform, init: State, big: bool, m: seq<Byte>): seq<Byte> {
    WordBytes(Fold(f, init, Padded(m, big)), big)
  }

  // ---- What the bytes weigh ----

  // The words of s, each in four bytes
  ghost predicate Spells(d: seq<Byte>, s: State, big: bool) {
    |d| == 4 * |s| && forall j :: 0 <= j < |s| ==> WordAt(d, 4 * j, s[j], big)
  }

  ghost predicate WordAt(d: seq<Byte>, at: nat, w: Word, big: bool)
    requires at + 4 <= |d|
  {
    w ==
      if big then d[at] as int * 0x100_0000 + d[at + 1] as int * 0x1_0000 + d[at + 2] as int * 0x100 + d[at + 3] as int
      else d[at] as int + d[at + 1] as int * 0x100 + d[at + 2] as int * 0x1_0000 + d[at + 3] as int * 0x100_0000
  }

  // p is m followed by a one bit, fewer zero bytes than fill a block, and the number of bits of
  // m in eight bytes, up to a whole number of blocks of 64 bytes: there is only one such p.
  ghost predicate IsPadded(p: seq<Byte>, m: seq<Byte>, big: bool) {
    && |p| % 64 == 0 && |m| + 9 <= |p| < |m| + 9 + 64
    && p[..|m|] == m && p[|m|] == 0x80 && (forall i :: |m| < i < |p| - 8 ==> p[i] == 0)
    && CountAt(p[|p| - 8..], 8 * |m| % 0x1_0000_0000_0000_0000, big)
  }

  ghost predicate CountAt(d: seq<Byte>, bits: nat, big: bool)
    requires |d| == 8
  {
    if big then HalvesAt(d[4..], d[..4], bits, big) else HalvesAt(d[..4], d[4..], bits, big)
  }

  ghost predicate HalvesAt(lo: seq<Byte>, hi: seq<Byte>, bits: nat, big: bool)
    requires |lo| == |hi| == 4
  {
    exists x: Word, y: Word :: WordAt(lo, 0, x, big) && WordAt(hi, 0, y, big) && bits == x + 0x1_0000_0000 * y
  }

  function OrderOf(big: bool): Order {
    if big then BE else LE
  }

  lemma WordIs(d: seq<Byte>, at: nat, big: bool)
    requires at + 4 <= |d|
    ensures var w := Value(OrderOf(big), d[at..at + 4]); w < 0x1_0000_0000 && WordAt(d, at, w, big)
  {
    ValueWeighs(OrderOf(big), d[at..at + 4]);
    Value4(OrderOf(big), d[at..at + 4]);
    assert Pow256(4) == 0x1_0000_0000;
  }

  lemma EndianByte(big: bool, v: nat, n: nat, i: nat)
    requires i < n
    ensures ByteOf(v, if big then n - 1 - i else i) == Bytes(OrderOf(big), v, n)[i]
  {
    BytesWeigh(OrderOf(big), v, n);
  }

  lemma WordsSpell(s: State, big: bool)
    ensures Spells(WordBytes(s, big), s, big)
  {
    hide Bytes, Value, ByteOf, WordAt, WordBytes;
    var d := WordBytes(s, big);
    WordBytesLength(s, big);
    forall j | 0 <= j < |s|
      ensures WordAt(d, 4 * j, s[j], big)
    {
      var b := d[4 * j..4 * j + 4];
      forall r | 0 <= r < 4
        ensures b[r] == Bytes(OrderOf(big), s[j], 4)[r]
      {
        WordBytesAt(s, big, j, r);
        EndianByte(big, s[j], 4, r);
      }
      assert b == Bytes(OrderOf(big), s[j], 4);
      assert Pow256(4) == 0x1_0000_0000;
      ReadsBack(OrderOf(big), s[j], 4);
      WordIs(d, 4 * j, big);
    }
  }

  // The halves of eight bytes
  lemma Eight(d: seq<Byte>, big: bool)
    requires |d| == 8
    ensures CountAt(d, Value(OrderOf(big), d), big)
  {
    hide HalvesAt, LittleValue;
    assert d == d[..4] + d[4..];
    if big {
      Lists.ReversedConcat(d[..4], d[4..]);
      Halves(Lists.Reversed(d[4..]), Lists.Reversed(d[..4]));
      HalvesWeigh(d[4..], d[..4], big);
    } else {
      Halves(d[..4], d[4..]);
      HalvesWeigh(d[..4], d[4..], big);
    }
  }

  lemma HalvesWeigh(lo: seq<Byte>, hi: seq<Byte>, big: bool)
    requires |lo| == |hi| == 4
    ensures HalvesAt(lo, hi, Value(OrderOf(big), lo) + 0x1_0000_0000 * Value(OrderOf(big), hi), big)
  {
    hide WordAt, Value;
    WordIs(lo, 0, big);
    WordIs(hi, 0, big);
    assert lo[0..4] == lo && hi[0..4] == hi;
  }

  lemma LengthWeighs(n: nat, big: bool)
    ensures CountAt(LengthBytes(n, big), 8 * n % 0x1_0000_0000_0000_0000, big)
  {
    hide CountAt, Bytes, Value, ByteOf;
    var v, d := 8 * n % COUNT_MOD, LengthBytes(n, big);
    forall i | 0 <= i < 8
      ensures d[i] == Bytes(OrderOf(big), v, 8)[i]
    {
      EndianByte(big, v, 8, i);
    }
    assert d == Bytes(OrderOf(big), v, 8);
    assert Pow256(8) == 0x1_0000_0000_0000_0000;
    ReadsBack(OrderOf(big), v, 8);
    Eight(d, big);
  }

  // The padded message is what the standards ask for, and nothing else is.
  lemma PaddedIs(m: seq<Byte>, big: bool)
    ensures IsPadded(Padded(m, big), m, big)
  {
    var p, z := Padded(m, big), PadZeros(|m|);
    PaddedLength(m, big);
    LengthWeighs(|m|, big);
    assert p[|p| - 8..] == LengthBytes(|m|, big);
    assert p[..|m|] == m;
  }

  lemma OnePadded(p: seq<Byte>, q: seq<Byte>, m: seq<Byte>, big: bool)
    requires IsPadded(p, m, big) && IsPadded(q, m, big)
    ensures p == q
  {
    hide CountAt;
    SameLength(|p|, |q|, |m|);
    var n := |p| - 8;
    SameCount(p[n..], q[n..], 8 * |m| % 0x1_0000_0000_0000_0000, big);
    forall i | 0 <= i < |p|
      ensures p[i] == q[i]
    {
      assert i < |m| ==> p[i] == p[..|m|][i] && q[i] == q[..|m|][i];
      assert i >= n ==> p[i] == p[n..][i - n] && q[i] == q[n..][i - n];
    }
  }

  lemma SameLength(p: nat, q: nat, m: nat)
    requires p % 64 == 0 == q % 64 && m + 9 <= p < m + 9 + 64 && m + 9 <= q < m + 9 + 64
    ensures p == q
  {
  }

  lemma SameCount(a: seq<Byte>, b: seq<Byte>, bits: nat, big: bool)
    requires |a| == |b| == 8 && CountAt(a, bits, big) && CountAt(b, bits, big)
    ensures a == b
  {
    hide WordAt;
    assert a == a[..4] + a[4..] && b == b[..4] + b[4..];
    SameWord(a[..4], b[..4], big);
    SameWord(a[4..], b[4..], big);
  }

  lemma SameWord(a: seq<Byte>, b: seq<Byte>, big: bool)
    requires |a| == |b| == 4
    ensures forall w: Word :: WordAt(a, 0, w, big) && WordAt(b, 0, w, big) ==> a == b
  {
    WordIs(a, 0, big);
    WordIs(b, 0, big);
    assert a[0..4] == a && b[0..4] == b;
    SameValue(OrderOf(big), a, b);
  }

  lemma PadBoundary(n: nat)
    requires n % BLOCK == 56
    ensures (n + 8) % BLOCK == 0
  {
    assert n + 8 == (n / BLOCK + 1) * BLOCK;
  }

  lemma {:induction false} FoldKeeps(f: Transform, init: State, s: State, n: nat, m: seq<Byte>)
    requires Keeps(f, init, n) && |s| == n
    ensures |Fold(f, s, m)| == n
    decreases |m|
  {
    if |m| >= BLOCK { FoldKeeps(f, init, f(s, m[..BLOCK]), n, m[BLOCK..]); }
  }

  lemma {:induction false} WordBytesAt(s: State, big: bool, j: nat, r: nat)
    requires j < |s| && r < 4 && |WordBytes(s, big)| == 4 * |s|
    ensures WordBytes(s, big)[4 * j + r] == ByteOf(s[j], if big then 3 - r else r)
  {
    if j > 0 {
      WordBytesLength(s[1..], big);
      WordBytesAt(s[1..], big, j - 1, r);
    }
  }

  lemma {:induction false} WordBytesLength(s: State, big: bool)
    ensures |WordBytes(s, big)| == 4 * |s|
  {
    if s != [] { WordBytesLength(s[1..], big); }
  }

  lemma WordsWritten(s: State, big: bool, d: seq<Byte>)
    requires |d| == 4 * |s|
    requires forall k :: 0 <= k < |d| ==> d[k] == ByteOf(s[k / 4], if big then 3 - k % 4 else k % 4)
    ensures d == WordBytes(s, big)
  {
    WordBytesLength(s, big);
    forall k | 0 <= k < |d|
      ensures d[k] == WordBytes(s, big)[k]
    {
      WordBytesAt(s, big, k / 4, k % 4);
    }
  }

  lemma {:induction false} HexAppend(a: seq<Byte>, d: Byte)
    ensures Hex(a + [d]) == Hex(a) + [HexDigit(d / 16), HexDigit(d % 16)]
  {
    if a == [] {
      assert a + [d] == [d];
    } else {
      assert (a + [d])[1..] == a[1..] + [d];
      HexAppend(a[1..], d);
    }
  }

  lemma {:induction false} FlattenAppend(chunks: seq<seq<Byte>>, c: seq<Byte>)
    ensures Flatten(chunks + [c]) == Flatten(chunks) + c
  {
    if chunks == [] {
      assert chunks + [c] == [c] && c + [] == c;
    } else {
      assert (chunks + [c])[1..] == chunks[1..] + [c];
      FlattenAppend(chunks[1..], c);
    }
  }

  // The padded message ends on a block boundary, with less than a block of zeros.
  lemma PaddedLength(m: seq<Byte>, big: bool)
    ensures |Padded(m, big)| % BLOCK == 0 && |Padded(m, big)| <= |m| + BLOCK + 8
  {
    PadBoundary(|m| + 1 + PadZeros(|m|));
  }

  lemma {:induction false} FoldAppend(f: Transform, s: State, a: seq<Byte>, b: seq<Byte>)
    requires |a| % BLOCK == 0
    ensures Fold(f, s, a + b) == Fold(f, Fold(f, s, a), b)
    decreases |a|
  {
    if a == [] {
      assert a + b == b;
    } else {
      assert (a + b)[..BLOCK] == a[..BLOCK] && (a + b)[BLOCK..] == a[BLOCK..] + b;
      FoldAppend(f, f(s, a[..BLOCK]), a[BLOCK..], b);
    }
  }

  lemma FoldWhole(f: Transform, s: State, m: seq<Byte>)
    ensures Fold(f, s, m) == Fold(f, s, m[..|m| - |m| % BLOCK])
  {
    var k := |m| - |m| % BLOCK;
    assert m == m[..k] + m[k..];
    FoldAppend(f, s, m[..k], m[k..]);
  }

  // Completing the last block of m by the bytes a feeds exactly one block.
  lemma FoldBlock(f: Transform, s: State, m: seq<Byte>, a: seq<Byte>)
    requires |m| % BLOCK + |a| == BLOCK
    ensures Fold(f, s, m + a) == f(Fold(f, s, m), Leftover(m) + a)
    ensures |m + a| % BLOCK == 0
  {
    var k := |m| - |m| % BLOCK;
    var b := Leftover(m) + a;
    assert m + a == m[..k] + b;
    FoldAppend(f, s, m[..k], b);
    FoldWhole(f, s, m);
    assert b[..BLOCK] == b && b[BLOCK..] == [];
  }

  lemma NothingLeft(m: seq<Byte>)
    requires |m| % BLOCK == 0
    ensures Leftover(m) == []
  {
  }

  lemma Aligned(n: nat, off: nat)
    requires (n + off) % BLOCK == 0
    ensures (n + (off + BLOCK)) % BLOCK == 0
  {
  }

  // After the bytes up to off have gone into whole blocks, or none has, the rest is
  // all that the buffer has to receive.
  lemma Consumed(f: Transform, s: State, m: seq<Byte>, input: seq<Byte>, off: nat)
    requires off <= |input|
    requires |input| - off < BLOCK - (|m| + off) % BLOCK
    ensures Fold(f, s, m + input) == Fold(f, s, m + input[..off])
    ensures (|m| + off) % BLOCK + (|input| - off) == |m + input| % BLOCK
    ensures Leftover(m + input) == Leftover(m + input[..off]) + input[off..]
  {
    var a, b := m + input[..off], input[off..];
    var k := |a| - |a| % BLOCK;
    assert m + input == a + b;
    Remainder(|a| / BLOCK, |a| % BLOCK + |b|);
    assert |a + b| == |a| / BLOCK * BLOCK + (|a| % BLOCK + |b|);
    assert (a + b)[..k] == a[..k];
    FoldWhole(f, s, a);
    FoldWhole(f, s, m + input);
  }

  lemma Remainder(q: nat, r: nat)
    requires r < BLOCK
    ensures (q * BLOCK + r) % BLOCK == r
  {
  }

  // The buffer position can be read off the bit count, even after the count has wrapped.
  lemma CountPosition(n: nat)
    ensures ((8 * n) % COUNT_MOD) / 8 % BLOCK == n % BLOCK
  {
    var q := 8 * n / COUNT_MOD;
    var c := (8 * n) % COUNT_MOD;
    assert c == 8 * (n - q * 0x2000_0000_0000_0000);
    assert c / 8 == n - q * 0x2000_0000_0000_0000;
  }

  lemma CountAdd(n: nat, len: nat)
    ensures ((8 * n) % COUNT_MOD + 8 * len) % COUNT_MOD == (8 * (n + len)) % COUNT_MOD
  {
    var q := 8 * n / COUNT_MOD;
    var c := (8 * n) % COUNT_MOD;
    assert 8 * (n + len) == (c + 8 * len) + q * COUNT_MOD;
    ModShift(c + 8 * len, q);
  }

  lemma ModShift(x: nat, q: nat)
    ensures (x + q * COUNT_MOD) % COUNT_MOD == x % COUNT_MOD
  {
    var r := x / COUNT_MOD;
    assert x + q * COUNT_MOD == (r + q) * COUNT_MOD + x % COUNT_MOD;
  }

  // The first n bytes of the PADDING table of md5.c and rmd160.c.
  function PaddingPrefix(n: nat): (p: seq<Byte>)
    requires 1 <= n <= BLOCK
    ensures p == [0x80] + Zeros(n - 1)
  {
    ([0x80] + Zeros(BLOCK - 1))[..n]
  }

  // PUT_32BIT_LE
  method Put32(cp: array<Byte>, at: nat, value: Word)
    requires at + 4 <= cp.Length
    modifies cp
    ensures forall j :: 0 <= j < 4 ==> cp[at + j] == ByteOf(value, j)
    ensures forall k :: 0 <= k < cp.Length && !(at <= k < at + 4) ==> cp[k] == old(cp[k])
  {
    cp[at + 3] := ByteOf(value, 3);
    cp[at + 2] := ByteOf(value, 2);
    cp[at + 1] := ByteOf(value, 1);
    cp[at] := ByteOf(value, 0);
  }

  // The words of the state, least significant byte first
  method PutWords(digest: array<Byte>, state: State)
    requires digest.Length == 4 * |state|
    modifies digest
    ensures digest[..] == WordBytes(state, false) && Spells(digest[..], state, false)
  {
    hide ByteOf, Spells;
    for i := 0 to |state|
      invariant forall k :: 0 <= k < 4 * i ==> digest[k] == ByteOf(state[k / 4], k % 4)
    {
      Put32(digest, i * 4, state[i]);
    }
    WordsWritten(state, false, digest[..]);
    WordsSpell(state, false);
  }

  // The same, most significant byte first
  method PutBytes(digest: array<Byte>, state: State)
    requires digest.Length == 4 * |state|
    modifies digest
    ensures digest[..] == WordBytes(state, true) && Spells(digest[..], state, true)
  {
    hide ByteOf, Spells;
    for i := 0 to 4 * |state|
      invariant forall k :: 0 <= k < i ==> digest[k] == ByteOf(state[k / 4], 3 - k % 4)
    {
      digest[i] := ByteOf(state[i / 4], 3 - i % 4);
    }
    WordsWritten(state, true, digest[..]);
    WordsSpell(state, true);
  }

  /** AG_MD5_CTX, AG_SHA1_CTX and AG_RMD160_CTX have the same fields. */
  class HashCtx {
    const f: Transform
    const init: State
    var state: State
    var count: int
    const buffer: array<Byte>
    ghost var msg: seq<Byte>  // everything fed since the initialisation

    // The Init functions: the state is set to the digest's constants, the count to zero.
    constructor (f: Transform, init: State)
      ensures Valid() && msg == [] && this.f == f && this.init == init && fresh(buffer)
    {
      this.f, this.init := f, init;
      state, count := init, 0;
      buffer := new Byte[BLOCK];
      msg := [];
    }

    ghost predicate Valid()
      reads this, buffer
    {
      && buffer.Length == BLOCK
      && count == (8 * |msg|) % COUNT_MOD
      && state == Fold(f, init, msg)
      && buffer[..|msg| % BLOCK] == Leftover(msg)
    }

    // memset(ctx, 0, sizeof(*ctx))
    method Clear()
      requires buffer.Length == BLOCK
      modifies this, buffer
      ensures count == 0 && buffer[..] == Zeros(BLOCK) && |state| == |old(state)|
      ensures forall i :: 0 <= i < |state| ==> state[i] == 0
    {
      state := seq(|state|, i => 0);
      count := 0;
      forall i | 0 <= i < BLOCK { buffer[i] := 0; }
    }

    // Inside an Update of `data`: its first `off` bytes have been folded into the state,
    // after which either whole blocks have been consumed or nothing has happened yet.
    ghost predicate Fed(data: seq<Byte>, off: nat)
      reads this, buffer
    {
      && buffer.Length == BLOCK && off <= |data|
      && count == (8 * (|msg| + |data|)) % COUNT_MOD
      && state == Fold(f, init, msg + data[..off])
      && (if off == 0 then buffer[..|msg| % BLOCK] == Leftover(msg) else (|msg| + off) % BLOCK == 0)
    }

    // memcpy(ctx->buffer + at, &data[from], n)
    method Copy(at: nat, data: seq<Byte>, from: nat, n: nat)
      requires buffer.Length == BLOCK && at + n <= BLOCK && from + n <= |data|
      modifies buffer
      ensures buffer[..at + n] == old(buffer[..at]) + data[from..from + n]
    {
      forall i | 0 <= i < n {
        buffer[at + i] := data[from + i];
      }
    }

    // The count is advanced by the length of the data.
    method Advance(data: seq<Byte>)
      requires Valid()
      modifies this`count
      ensures Fed(data, 0)
    {
      CountAdd(|msg|, |data|);
      assert msg + data[..0] == msg;
      count := (count + 8 * |data|) % COUNT_MOD;
    }

    // The buffered bytes are completed to a block, which is transformed.
    method FillBuffer(have: nat, data: seq<Byte>, need: nat)
      requires Fed(data, 0) && have == |msg| % BLOCK && have + need == BLOCK && need <= |data|
      modifies this`state, buffer
      ensures Fed(data, need)
    {
      FoldBlock(f, init, msg, data[..need]);
      assert msg + data[..0] == msg;
      Copy(have, data, 0, need);
      assert buffer[..] == Leftover(msg) + data[..need];
      state := f(state, buffer[..]);
    }

    // A block is transformed straight from the data, when the buffer is empty.
    method TakeBlock(data: seq<Byte>, off: nat)
      requires Fed(data, off) && (off == 0 ==> |msg| % BLOCK == 0) && off + BLOCK <= |data|
      modifies this`state
      ensures Fed(data, off + BLOCK)
    {
      hide Fold, Leftover;
      Aligned(|msg|, off);
      NothingLeft(msg + data[..off]);
      FoldBlock(f, init, msg + data[..off], data[off..off + BLOCK]);
      assert [] + data[off..off + BLOCK] == data[off..off + BLOCK];
      assert |msg + data[..off + BLOCK]| == |msg| + off + BLOCK;
      assert (msg + data[..off]) + data[off..off + BLOCK] == msg + data[..off + BLOCK];
      state := f(state, data[off..off + BLOCK]);
    }

    // The rest of the data goes to the buffer.
    method KeepRest(have: nat, data: seq<Byte>, off: nat)
      requires Fed(data, off) && have == (if off == 0 then |msg| % BLOCK else 0)
      requires have + |data| - off < BLOCK
      modifies this`msg, buffer
      ensures Valid() && msg == old(msg) + data
    {
      Consumed(f, init, msg, data, off);
      assert off == 0 ==> msg + data[..0] == msg;
      assert buffer[..have] == Leftover(msg + data[..off]);
      if off < |data| {
        Copy(have, data, off, |data| - off);
      }
      msg := msg + data;
    }
  }

  // The End functions: two hexadecimal digits for each byte of the digest.
  method ToHex(digest: array<Byte>) returns (buf: seq<char>)
    ensures buf == Hex(digest[..]) && IsHex(buf, digest[..])
  {
    HexIs(digest[..]);
    buf := [];
    for i := 0 to digest.Length
      invariant buf == Hex(digest[..i])
    {
      HexAppend(digest[..i], digest[i]);
      assert digest[..i + 1] == digest[..i] + [digest[i]];
      buf := buf + [HexDigit(digest[i] / 16), HexDigit(digest[i] % 16)];
    }
    assert digest[..digest.Length] == digest[..];
  }
}
