/** Strings in fields of a fixed length, and skipping over strings (core/load_string.c).  Behind
    a string the source is moved on by seeking, which core/data_source.c refuses at the end. */
module PaddedStrings {

  import opened ByteOrder
  import opened Wire
  import opened DataSource
  import opened Format

  const STRING_PAD: nat := 0x4147000e

  // AG_WriteStringPadded
  function PaddedImage(m: Mode, s: Str, n: nat): seq<Byte>
    requires |s| <= n
  {
    Tag(m, STRING_PAD) + (m.codec.enc(|s|, 4) + (m.codec.enc(n, 4) + (s + Zeros(n - |s|))))
  }

  method WriteStringPadded(ds: CoreSource, s: Str, lenPadded: nat) returns (ok: bool)
    requires ds.AtEnd() && lenPadded < 0x1_0000_0000
    modifies ds`data, ds`size, ds`offs, ds`wrLast, ds`wrTotal
    ensures ds.AtEnd() && ok == (|s| <= lenPadded)
    ensures ds.data == if ok then old(ds.data) + PaddedImage(ds.Settings(), s, lenPadded) else old(ds.data)
    ensures ok ==> PaddedIs(ds.data, |old(ds.data)|, Form(ds.order, ds.debug), s, lenPadded)
  {
    hide PaddedIs, PaddedImage;
    if |s| > lenPadded {
      return false;
    }
    ghost var start, f := ds.data, Form(ds.order, ds.debug);
    WriteParts(ds, s, lenPadded);
    Behind(ds.data, start, PaddedImage(ModeOf(f), s, lenPadded));
    PaddedPlaced(f, ds.data, |start|, s, lenPadded);
    ok := true;
  }

  // The type code and the two lengths, the string and its padding
  method WriteParts(ds: CoreSource, s: Str, lenPadded: nat)
    requires ds.AtEnd() && |s| <= lenPadded < 0x1_0000_0000
    modifies ds`data, ds`size, ds`offs, ds`wrLast, ds`wrTotal
    ensures ds.AtEnd() && ds.data == old(ds.data) + PaddedImage(ds.Settings(), s, lenPadded)
  {
    hide Weighs;
    ghost var m, start := ds.Settings(), ds.data;
    assert Pow256(4) == 0x1_0000_0000;
    ds.WriteTag(STRING_PAD);
    ds.WriteWord(|s|, 4);
    ds.WriteWord(lenPadded, 4);
    if |s| > 0 {
      ds.Write(s);
    }
    WritePadding(ds, lenPadded - |s|);
    Grouped(start, Tag(m, STRING_PAD), m.codec.enc(|s|, 4), m.codec.enc(lenPadded, 4), s, Zeros(lenPadded - |s|));
  }

  // A string in a field of n bytes: its length and that of the field, without type codes of their
  // own, its characters, and zeros
  ghost predicate PaddedIs(d: seq<Byte>, at: nat, f: Form, s: Str, n: nat) {
    var p := at + Ahead(f);
    && TagIs(d, at, f, 0xe) && |s| <= n && p + 8 + n <= |d|
    && Weighs(d[p..p + 4], f.o, |s|) && Weighs(d[p + 4..p + 8], f.o, n)
    && d[p + 8..p + 8 + |s|] == s && (forall i :: p + 8 + |s| <= i < p + 8 + n ==> d[i] == 0)
  }

  lemma PaddedPlaced(f: Form, d: seq<Byte>, at: nat, s: Str, n: nat)
    requires |s| <= n && HasAt(d, at, PaddedImage(ModeOf(f), s, n))
    ensures PaddedIs(d, at, f, s, n)
  {
    hide TagIs, Weighs, Bytes;
    var m, a, b, z := ModeOf(f), Bytes(f.o, |s|, 4), Bytes(f.o, n, 4), Zeros(n - |s|);
    var p := at + Ahead(f);
    HasBoth(d, at, Tag(m, CodeOf(0xe)), a + (b + (s + z)));
    TagPlaced(f, d, at, 0xe);
    HasBoth(d, p, a, b + (s + z));
    HasBoth(d, p + 4, b, s + z);
    HasBoth(d, p + 8, s, z);
    BytesWeigh(f.o, |s|, 4);
    BytesWeigh(f.o, n, 4);
    forall i | p + 8 + |s| <= i < p + 8 + n
      ensures d[i] == 0
    {
      assert d[i] == d[p + 8 + |s|..p + 8 + n][i - (p + 8 + |s|)];
    }
  }

  // The padding, in chunks of no more than 1024 bytes
  method WritePadding(ds: CoreSource, n: nat)
    requires ds.AtEnd()
    modifies ds`data, ds`size, ds`offs, ds`wrLast, ds`wrTotal
    ensures ds.AtEnd() && ds.data == old(ds.data) + Zeros(n)
  {
    var padLen := n;
    while padLen > 0
      invariant 0 <= padLen <= n && ds.AtEnd() && ds.data == old(ds.data) + Zeros(n - padLen)
    {
      var chunkLen := if padLen < 1024 then padLen else 1024;
      ds.Write(Zeros(chunkLen));
      assert Zeros(n - padLen) + Zeros(chunkLen) == Zeros(n - padLen + chunkLen);
      padLen := padLen - chunkLen;
    }
  }

  lemma Grouped(start: seq<Byte>, a: seq<Byte>, b: seq<Byte>, c: seq<Byte>, d: seq<Byte>, e: seq<Byte>)
    ensures ((((start + a) + b) + c) + d) + e == start + (a + (b + (c + (d + e))))
    ensures (((start + a) + b) + c) + ([] + e) == ((((start + a) + b) + c) + []) + e
  {
    Lists.Assoc(((start + a) + b) + c, d, e);
    Lists.Assoc((start + a) + b, c, d + e);
    Lists.Assoc(start + a, b, c + (d + e));
    Lists.Assoc(start, a, b + (c + (d + e)));
  }

  // AG_Seek from the current offset
  function Moved(d: seq<Byte>, to: int): Parsed<nat> {
    if 0 <= to < |d| then Just(to, to) else Nothing
  }

  // AG_CopyStringPadded, to a buffer of `size` bytes
  function PaddedAt(m: Mode, d: seq<Byte>, at: nat, size: nat): Parsed<(Str, nat)>
    requires size > 0
  {
    var p := at + TagSize(m);
    if !TagAt(m, d, at, STRING_PAD) || p + 8 > |d| then Nothing
    else
      var len, lenPadded := m.codec.dec(d[p..p + 4]), m.codec.dec(d[p + 4..p + 8]);
      var n := if len > size - 1 then size - 1 else len;
      var to := p + 8 + lenPadded;
      if p + 8 + n > |d| || (lenPadded != n && to >= |d|) then Nothing
      else Just((d[p + 8..p + 8 + n], if len > size - 1 then len + 1 else len), to)
  }

  method CopyStringPadded(ds: CoreSource, dstSize: nat) returns (p: Parsed<(Str, nat)>)
    requires ds.Valid() && dstSize > 0
    modifies ds`offs, ds`rdLast, ds`rdTotal
    ensures ds.Valid() && p == PaddedAt(ds.Settings(), ds.data, old(ds.offs), dstSize)
    ensures p.Just? ==> ds.offs == p.next
  {
    hide CodecOf, TagAt;
    var ok := ds.CheckTag(STRING_PAD);
    if !ok {
      return Nothing;
    }
    var rv, len, lenPadded := ReadLengths(ds);
    if rv != 0 {
      return Nothing;
    }
    var rvLen, n := len, len;
    if len > dstSize - 1 {
      rvLen, n := len + 1, dstSize - 1;
    }
    var buf;
    rv, buf := ds.ReadChars(n);
    if rv != 0 {
      return Nothing;
    }
    if lenPadded != n {
      rv := ds.CoreSeek(lenPadded - n, FromCurrent);
      if rv == -1 {
        return Nothing;
      }
    }
    p := Just((buf, rvLen), ds.offs);
  }

  // The two lengths ahead of the string
  method ReadLengths(ds: CoreSource) returns (rv: int, len: nat, lenPadded: nat)
    requires ds.Valid()
    modifies ds`offs, ds`rdLast, ds`rdTotal
    ensures ds.Valid() && rv == if old(ds.offs) + 8 <= |ds.data| then 0 else -1
    ensures rv == 0 ==> var p := old(ds.offs);
      ds.offs == p + 8 && len == ds.Settings().codec.dec(ds.data[p..p + 4]) &&
        lenPadded == ds.Settings().codec.dec(ds.data[p + 4..p + 8])
  {
    var head;
    len, lenPadded := 0, 0;
    rv, head := ds.Read(8);
    if rv == 0 {
      ghost var p := ds.offs - 8;
      assert head[..4] == ds.data[p..p + 4] && head[4..] == ds.data[p + 4..p + 8];
      len, lenPadded := Decoded(ds, head[..4]), Decoded(ds, head[4..]);
    }
  }

  // Four bytes in memory, swapped if need be
  function Decoded(ds: CoreSource, b: seq<Byte>): (v: nat)
    requires |b| == 4
    reads ds`order
    ensures v == ds.Settings().codec.dec(b)
  {
    StoredValue(ds.host, ds.order, b);
    Stored(ds.host, ds.order, Value(ds.host, b), 4)
  }

  lemma PaddedParts(m: Mode, d: seq<Byte>, at: nat, s: Str, n: nat)
    requires |s| <= n < 0x1_0000_0000 && HasAt(d, at, PaddedImage(m, s, n))
    ensures var p := at + TagSize(m);
      && at + |PaddedImage(m, s, n)| == p + 8 + n <= |d|
      && (forall c :: TagAt(m, d, at, c) <==> !m.debug || c == STRING_PAD)
      && m.codec.dec(d[p..p + 4]) == |s| && m.codec.dec(d[p + 4..p + 8]) == n && d[p + 8..p + 8 + |s|] == s
  {
    var p, z := at + TagSize(m), Zeros(n - |s|);
    assert Pow256(4) == 0x1_0000_0000;
    HasBoth(d, at, Tag(m, STRING_PAD), m.codec.enc(|s|, 4) + (m.codec.enc(n, 4) + (s + z)));
    TagBack(m, d, at, STRING_PAD);
    HasBoth(d, p, m.codec.enc(|s|, 4), m.codec.enc(n, 4) + (s + z));
    HasBoth(d, p + 4, m.codec.enc(n, 4), s + z);
    HasBoth(d, p + 8, s, z);
  }

  // What AG_WriteStringPadded wrote, AG_CopyStringPadded copies, as far as it fits, and goes to
  // the end of the field, if and only if that is not the end of the source or nothing is left
  // to skip: so the last field of a source comes back only when its string fills it.
  lemma PaddedBack(m: Mode, d: seq<Byte>, at: nat, s: Str, n: nat, size: nat)
    requires |s| <= n < 0x1_0000_0000 && 0 < size && HasAt(d, at, PaddedImage(m, s, n))
    ensures var e := at + |PaddedImage(m, s, n)|;
      var k := if |s| > size - 1 then size - 1 else |s|;
      PaddedAt(m, d, at, size) ==
        if k == n || e < |d| then Just((s[..k], if |s| > size - 1 then |s| + 1 else |s|), e) else Nothing
  {
    PaddedParts(m, d, at, s, n);
    var p := at + TagSize(m);
    var k := if |s| > size - 1 then size - 1 else |s|;
    assert d[p + 8..p + 8 + k] == d[p + 8..p + 8 + |s|][..k];
  }

  // ---- Skipping ----

  // AG_SkipString and AG_SkipStringPadded: the lengths are read with type codes of their own.
  function SkippedAt(m: Mode, d: seq<Byte>, at: nat): Parsed<nat> {
    if !TagAt(m, d, at, STRING) then Nothing
    else match IntAt(m, d, at + TagSize(m), UINT32, 4)
      case Nothing => Nothing
      case Just(len, p) => Moved(d, p + len)
  }

  function PaddedSkippedAt(m: Mode, d: seq<Byte>, at: nat): Parsed<nat> {
    if !TagAt(m, d, at, STRING_PAD) then Nothing
    else match IntAt(m, d, at + TagSize(m), UINT32, 4)
      case Nothing => Nothing
      case Just(_, q) =>
        match IntAt(m, d, q, UINT32, 4)
        case Nothing => Nothing
        case Just(lenPadded, p) => Moved(d, p + lenPadded)
  }

  method Skip(ds: CoreSource, n: nat) returns (p: Parsed<nat>)
    requires ds.Valid()
    modifies ds`offs
    ensures ds.Valid() && p == Moved(ds.data, old(ds.offs) + n)
    ensures p.Just? ==> ds.offs == p.next
  {
    var rv := ds.CoreSeek(n, FromCurrent);
    p := if rv == -1 then Nothing else Just(ds.offs, ds.offs);
  }

  method SkipString(ds: CoreSource) returns (p: Parsed<nat>)
    requires ds.Valid()
    modifies ds`offs, ds`rdLast, ds`rdTotal
    ensures ds.Valid() && p == SkippedAt(ds.Settings(), ds.data, old(ds.offs))
    ensures p.Just? ==> ds.offs == p.next
  {
    var ok := ds.CheckTag(STRING);
    if !ok {
      return Nothing;
    }
    var len := ds.ReadInt(UINT32, 4);
    if len.Nothing? {
      return Nothing;
    }
    p := Skip(ds, len.val);
  }

  method SkipStringPadded(ds: CoreSource) returns (p: Parsed<nat>)
    requires ds.Valid()
    modifies ds`offs, ds`rdLast, ds`rdTotal
    ensures ds.Valid() && p == PaddedSkippedAt(ds.Settings(), ds.data, old(ds.offs))
    ensures p.Just? ==> ds.offs == p.next
  {
    hide IntAt, TagAt, CodecOf;
    var ok := ds.CheckTag(STRING_PAD);
    if !ok {
      return Nothing;
    }
    var len := ds.ReadInt(UINT32, 4);
    if len.Nothing? {
      return Nothing;
    }
    var lenPadded := ds.ReadInt(UINT32, 4);
    if lenPadded.Nothing? {
      return Nothing;
    }
    p := Skip(ds, lenPadded.val);
  }

  // A string is skipped if and only if the source goes on behind it and is not in debug mode,
  // or the string looks by chance like a type code and the length that leads there.
  lemma SkipsBack(m: Mode, d: seq<Byte>, at: nat, s: Str)
    requires |s| < 0x1_0000_0000 && HasAt(d, at, StringImage(m, s))
    ensures var e := at + |StringImage(m, s)|;
      SkippedAt(m, d, at) == Just(e, e) <==> e < |d| && (!m.debug || (|s| == UINT32 && m.codec.dec(s[..4]) == |s| - 4))
  {
    StringParts(m, d, at, s);
    Slices(d, at + TagSize(m) + 4, s);
  }

  lemma PaddedSkipsBack(m: Mode, d: seq<Byte>, at: nat, s: Str, n: nat)
    requires |s| <= n < 0x1_0000_0000 && HasAt(d, at, PaddedImage(m, s, n))
    ensures var e := at + |PaddedImage(m, s, n)|;
      PaddedSkippedAt(m, d, at) == Just(e, e) <==>
        e < |d| && (!m.debug || (|s| == UINT32 && m.codec.dec(s[..4]) == UINT32 && m.codec.dec(s[4..8]) == n - 8))
  {
    PaddedParts(m, d, at, s, n);
    Slices(d, at + TagSize(m) + 8, s);
  }

  // The first bytes of a string found at p
  lemma Slices(d: seq<Byte>, p: nat, s: Str)
    requires p + |s| <= |d| && d[p..p + |s|] == s
    ensures |s| >= 4 ==> d[p..p + 4] == s[..4]
    ensures |s| >= 8 ==> d[p + 4..p + 8] == s[4..8]
  {
    var u := d[p..p + |s|];
    assert |s| >= 4 ==> u[..4] == d[p..p + 4];
    if |s| >= 8 {
      forall i | 0 <= i < 4
        ensures u[4..8][i] == d[p + 4..p + 8][i]
      {
        assert u[4 + i] == d[p + 4 + i];
      }
    }
  }
}
