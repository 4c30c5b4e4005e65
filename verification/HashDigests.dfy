/** AG_MD5Update, AG_MD5Pad and AG_MD5Final (core/md5.c). */
module Md5 {
  import opened ByteOrder
  import opened HashStream

  const INIT: State := [0x67452301, 0xefcdab89, 0x98badcfe, 0x10325476]

  // The digits in order and backwards, as in section 3.3 of RFC 1321
  lemma InitBytes()
    ensures Spells([0x01, 0x23, 0x45, 0x67, 0x89, 0xab, 0xcd, 0xef, 0xfe, 0xdc, 0xba, 0x98, 0x76, 0x54, 0x32, 0x10],
      INIT, false)
  {
  }

  method Update(ctx: HashCtx, input: seq<Byte>)
    requires ctx.Valid()
    modifies ctx, ctx.buffer
    ensures ctx.Valid() && ctx.msg == old(ctx.msg) + input
  {
    var off, len := 0, |input|;
    CountPosition(|ctx.msg|);
    var have := ctx.count / 8 % BLOCK;
    var need := BLOCK - have;
    ctx.Advance(input);
    if len >= need {
      if have != 0 {
        ctx.FillBuffer(have, input, need);
        off := off + need;
        len := len - need;
        have := 0;
      }
      while len >= BLOCK
        invariant 0 <= len && off + len == |input| && ctx.Fed(input, off) && (off == 0 ==> |ctx.msg| % BLOCK == 0)
        invariant ctx.msg == old(ctx.msg)
      {
        ctx.TakeBlock(input, off);
        off := off + BLOCK;
        len := len - BLOCK;
      }
    }
    ctx.KeepRest(have, input, off);
  }

  // AG_MD5Pad: the length is taken before the padding is fed.
  method Pad(ctx: HashCtx)
    requires ctx.Valid()
    modifies ctx, ctx.buffer
    ensures ctx.Valid() && ctx.msg == Padded(old(ctx.msg), false) && IsPadded(ctx.msg, old(ctx.msg), false)
  {
    hide IsPadded;
    PaddedIs(ctx.msg, false);
    CountPosition(|ctx.msg|);
    PadLength(|ctx.msg|);
    var count := LittleEndian(ctx.count, 8);
    var padlen := BLOCK - ctx.count / 8 % BLOCK;
    if padlen < 1 + 8 {
      padlen := padlen + BLOCK;
    }
    Update(ctx, PaddingPrefix(padlen - 8));
    Update(ctx, count);
    assert ctx.msg == old(ctx.msg) + [0x80] + Zeros(PadZeros(|old(ctx.msg)|)) + LengthBytes(|old(ctx.msg)|, false);
  }

  // AG_MD5Final: the words of the state, least significant byte first; then the context is wiped.
  method Final(ctx: HashCtx, digest: array?<Byte>)
    requires ctx.Valid() && Keeps(ctx.f, ctx.init, 4)
    requires digest != null ==> digest.Length == 16 && digest != ctx.buffer
    modifies ctx, ctx.buffer, if digest == null then {} else {digest}
    ensures digest == null ==> ctx.Valid() && ctx.msg == Padded(old(ctx.msg), false)
    ensures digest != null ==> digest[..] == Digest(ctx.f, ctx.init, false, old(ctx.msg))
    ensures digest != null ==>
      exists p :: IsPadded(p, old(ctx.msg), false) && Spells(digest[..], Fold(ctx.f, ctx.init, p), false)
    ensures digest != null ==> ctx.count == 0 && forall i :: 0 <= i < |ctx.state| ==> ctx.state[i] == 0
  {
    hide IsPadded, Spells;
    Pad(ctx);
    if digest != null {
      FoldKeeps(ctx.f, ctx.init, ctx.init, 4, ctx.msg);
      PutWords(digest, ctx.state);
      ctx.Clear();
    }
  }

  // The loop of AG_ObjectCopyChecksum: a file is hashed as it is read, in chunks of any size.
  method Checksum(f: Transform, chunks: seq<seq<Byte>>) returns (totlen: nat, hex: seq<char>)
    requires Keeps(f, INIT, 4)
    ensures totlen == |Flatten(chunks)| && hex == Hex(Digest(f, INIT, false, Flatten(chunks)))
  {
    var ctx := new HashCtx(f, INIT);
    totlen := 0;
    for i := 0 to |chunks|
      invariant ctx.Valid() && ctx.f == f && ctx.init == INIT && fresh(ctx) && fresh(ctx.buffer)
      invariant ctx.msg == Flatten(chunks[..i]) && totlen == |ctx.msg|
    {
      FlattenAppend(chunks[..i], chunks[i]);
      assert chunks[..i + 1] == chunks[..i] + [chunks[i]];
      Update(ctx, chunks[i]);
      totlen := totlen + |chunks[i]|;
    }
    assert chunks[..|chunks|] == chunks;
    var digest := new Byte[16];
    Final(ctx, digest);
    hex := ToHex(digest);
  }
}

/** AG_RMD160Update, AG_RMD160Pad and AG_RMD160Final (core/rmd160.c). */
module Rmd160 {
  import opened ByteOrder
  import opened HashStream

  const INIT: State := [0x67452301, 0xEFCDAB89, 0x98BADCFE, 0x10325476, 0xC3D2E1F0]

  lemma InitBytes()
    ensures Spells([0x01, 0x23, 0x45, 0x67, 0x89, 0xab, 0xcd, 0xef, 0xfe, 0xdc, 0xba, 0x98, 0x76, 0x54, 0x32, 0x10,
      0xf0, 0xe1, 0xd2, 0xc3], INIT, false)
  {
  }

  method Update(ctx: HashCtx, input: seq<Byte>)
    requires ctx.Valid()
    modifies ctx, ctx.buffer
    ensures ctx.Valid() && ctx.msg == old(ctx.msg) + input
  {
    var len := |input|;
    CountPosition(|ctx.msg|);
    var have := ctx.count / 8 % BLOCK;
    var need := BLOCK - have;
    ctx.Advance(input);
    var off := 0;
    if len >= need {
      if have != 0 {
        ctx.FillBuffer(have, input, need);
        off := need;
        have := 0;
      }
      while off + BLOCK <= len
        invariant off <= len && ctx.Fed(input, off) && (off == 0 ==> |ctx.msg| % BLOCK == 0)
        invariant ctx.msg == old(ctx.msg)
      {
        ctx.TakeBlock(input, off);
        off := off + BLOCK;
      }
    }
    ctx.KeepRest(have, input, off);
  }

  // AG_RMD160Pad: the length is taken before the padding is fed.
  method Pad(ctx: HashCtx)
    requires ctx.Valid()
    modifies ctx, ctx.buffer
    ensures ctx.Valid() && ctx.msg == Padded(old(ctx.msg), false) && IsPadded(ctx.msg, old(ctx.msg), false)
  {
    hide IsPadded;
    PaddedIs(ctx.msg, false);
    CountPosition(|ctx.msg|);
    PadLength(|ctx.msg|);
    var size := LittleEndian(ctx.count, 8);
    var padlen := BLOCK - ctx.count / 8 % BLOCK;
    if padlen < 1 + 8 {
      padlen := padlen + BLOCK;
    }
    Update(ctx, PaddingPrefix(padlen - 8));
    Update(ctx, size);
    assert ctx.msg == old(ctx.msg) + [0x80] + Zeros(PadZeros(|old(ctx.msg)|)) + LengthBytes(|old(ctx.msg)|, false);
  }

  // AG_RMD160Final: the words of the state, least significant byte first; then the context is wiped.
  method Final(ctx: HashCtx, digest: array?<Byte>)
    requires ctx.Valid() && Keeps(ctx.f, ctx.init, 5)
    requires digest != null ==> digest.Length == 20 && digest != ctx.buffer
    modifies ctx, ctx.buffer, if digest == null then {} else {digest}
    ensures digest == null ==> ctx.Valid() && ctx.msg == Padded(old(ctx.msg), false)
    ensures digest != null ==> digest[..] == Digest(ctx.f, ctx.init, false, old(ctx.msg))
    ensures digest != null ==>
      exists p :: IsPadded(p, old(ctx.msg), false) && Spells(digest[..], Fold(ctx.f, ctx.init, p), false)
    ensures digest != null ==> ctx.count == 0 && forall i :: 0 <= i < |ctx.state| ==> ctx.state[i] == 0
  {
    hide IsPadded, Spells;
    Pad(ctx);
    if digest != null {
      FoldKeeps(ctx.f, ctx.init, ctx.init, 5, ctx.msg);
      PutWords(digest, ctx.state);
      ctx.Clear();
    }
  }

  // The loop of AG_ObjectCopyChecksum: a file is hashed as it is read, in chunks of any size.
  method Checksum(f: Transform, chunks: seq<seq<Byte>>) returns (totlen: nat, hex: seq<char>)
    requires Keeps(f, INIT, 5)
    ensures totlen == |Flatten(chunks)| && hex == Hex(Digest(f, INIT, false, Flatten(chunks)))
  {
    var ctx := new HashCtx(f, INIT);
    totlen := 0;
    for i := 0 to |chunks|
      invariant ctx.Valid() && ctx.f == f && ctx.init == INIT && fresh(ctx) && fresh(ctx.buffer)
      invariant ctx.msg == Flatten(chunks[..i]) && totlen == |ctx.msg|
    {
      FlattenAppend(chunks[..i], chunks[i]);
      assert chunks[..i + 1] == chunks[..i] + [chunks[i]];
      Update(ctx, chunks[i]);
      totlen := totlen + |chunks[i]|;
    }
    assert chunks[..|chunks|] == chunks;
    var digest := new Byte[20];
    Final(ctx, digest);
    hex := ToHex(digest);
  }
}

/** AG_SHA1Update, AG_SHA1Pad and AG_SHA1Final (core/sha1.c). */
module Sha1 {
  import opened ByteOrder
  import opened HashStream

  const INIT: State := [0x67452301, 0xEFCDAB89, 0x98BADCFE, 0x10325476, 0xC3D2E1F0]

  // As in section 6.1 of RFC 3174
  lemma InitBytes()
    ensures Spells([0x67, 0x45, 0x23, 0x01, 0xEF, 0xCD, 0xAB, 0x89, 0x98, 0xBA, 0xDC, 0xFE, 0x10, 0x32, 0x54, 0x76,
      0xC3, 0xD2, 0xE1, 0xF0], INIT, true)
  {
  }

  method Update(ctx: HashCtx, data: seq<Byte>)
    requires ctx.Valid()
    modifies ctx, ctx.buffer
    ensures ctx.Valid() && ctx.msg == old(ctx.msg) + data
  {
    var len := |data|;
    CountPosition(|ctx.msg|);
    var i;
    var j := ctx.count / 8 % 64;
    ctx.Advance(data);
    if j + len > 63 {
      i := 64 - j;
      ctx.FillBuffer(j, data, i);
      while i + 63 < len
        invariant i <= len && ctx.Fed(data, i) && (i == 0 ==> |ctx.msg| % BLOCK == 0)
        invariant ctx.msg == old(ctx.msg)
      {
        ctx.TakeBlock(data, i);
        i := i + 64;
      }
      j := 0;
    } else {
      i := 0;
    }
    ctx.KeepRest(j, data, i);
  }

  // AG_SHA1Pad feeds the padding byte by byte.
  method Pad(ctx: HashCtx)
    requires ctx.Valid()
    modifies ctx, ctx.buffer
    ensures ctx.Valid() && ctx.msg == Padded(old(ctx.msg), true) && IsPadded(ctx.msg, old(ctx.msg), true)
  {
    hide Fold, PadZeros, Leftover, IsPadded;
    PaddedIs(ctx.msg, true);
    ghost var m := ctx.msg;
    var finalcount := BigEndian(ctx.count, 8);
    Update(ctx, [0x80]);
    ghost var k := 0;
    assert ctx.msg == m + [0x80] + Zeros(0);
    CountPosition(|ctx.msg|);
    while ctx.count / 8 % 64 != 56
      invariant ctx.Valid() && k <= PadZeros(|m|) && ctx.msg == m + [0x80] + Zeros(k)
      invariant ctx.count / 8 % 64 == (|m| + 1 + k) % 64
      decreases PadZeros(|m|) - k
    {
      FirstBoundary(|m|, k);
      Update(ctx, [0]);
      assert Zeros(k) + [0] == Zeros(k + 1);
      k := k + 1;
      CountPosition(|ctx.msg|);
    }
    FirstBoundary(|m|, k);
    Update(ctx, finalcount);
  }

  // The number of zeros is the first one that reaches the length field.
  lemma FirstBoundary(n: nat, k: nat)
    requires k <= PadZeros(n)
    ensures (n + 1 + k) % BLOCK == 56 <==> k == PadZeros(n)
  {
  }

  // AG_SHA1Final: the words of the state, most significant byte first; then the context is wiped.
  method Final(ctx: HashCtx, digest: array?<Byte>)
    requires ctx.Valid() && Keeps(ctx.f, ctx.init, 5)
    requires digest != null ==> digest.Length == 20 && digest != ctx.buffer
    modifies ctx, ctx.buffer, if digest == null then {} else {digest}
    ensures digest == null ==> ctx.Valid() && ctx.msg == Padded(old(ctx.msg), true)
    ensures digest != null ==> digest[..] == Digest(ctx.f, ctx.init, true, old(ctx.msg))
    ensures digest != null ==>
      exists p :: IsPadded(p, old(ctx.msg), true) && Spells(digest[..], Fold(ctx.f, ctx.init, p), true)
    ensures digest != null ==> ctx.count == 0 && forall i :: 0 <= i < |ctx.state| ==> ctx.state[i] == 0
  {
    hide IsPadded, Spells;
    Pad(ctx);
    if digest != null {
      FoldKeeps(ctx.f, ctx.init, ctx.init, 5, ctx.msg);
      PutBytes(digest, ctx.state);
      ctx.Clear();
    }
  }

  // The loop of AG_ObjectCopyChecksum: a file is hashed as it is read, in chunks of any size.
  method Checksum(f: Transform, chunks: seq<seq<Byte>>) returns (totlen: nat, hex: seq<char>)
    requires Keeps(f, INIT, 5)
    ensures totlen == |Flatten(chunks)| && hex == Hex(Digest(f, INIT, true, Flatten(chunks)))
  {
    var ctx := new HashCtx(f, INIT);
    totlen := 0;
    for i := 0 to |chunks|
      invariant ctx.Valid() && ctx.f == f && ctx.init == INIT && fresh(ctx) && fresh(ctx.buffer)
      invariant ctx.msg == Flatten(chunks[..i]) && totlen == |ctx.msg|
    {
      FlattenAppend(chunks[..i], chunks[i]);
      assert chunks[..i + 1] == chunks[..i] + [chunks[i]];
      Update(ctx, chunks[i]);
      totlen := totlen + |chunks[i]|;
    }
    assert chunks[..|chunks|] == chunks;
    var digest := new Byte[20];
    Final(ctx, digest);
    hex := ToHex(digest);
  }
}
