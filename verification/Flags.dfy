/** Words of flags as sequences of bits, the lowest first. */
module Flags {

  import opened Powers

  type Bits = seq<bool>

  function WordOf(f: Bits): nat {
    if f == [] then 0 else (if f[0] then 1 else 0) + 2 * WordOf(f[1..])
  }

  function Bit(w: nat, i: nat): bool {
    if i == 0 then w % 2 == 1 else Bit(w / 2, i - 1)
  }

  // f & mask
  function And(f: Bits, mask: set<nat>): (r: Bits)
    ensures |r| == |f|
  {
    seq(|f|, (i: nat) requires i < |f| => f[i] && i in mask)
  }

  lemma AndAt(f: Bits, mask: set<nat>, i: nat)
    requires i < |f|
    ensures And(f, mask)[i] == (f[i] && i in mask)
  {
  }

  // (f & ~mask) | w
  function Overlaid(f: Bits, mask: set<nat>, w: nat): (r: Bits)
    ensures |r| == |f|
  {
    seq(|f|, (i: nat) requires i < |f| => (f[i] && i !in mask) || Bit(w, i))
  }

  lemma {:induction false} BitsReadBack(f: Bits, i: nat)
    requires i < |f|
    ensures Bit(WordOf(f), i) == f[i]
  {
    if i > 0 {
      BitsReadBack(f[1..], i - 1);
    }
  }

  lemma {:induction false} WordBound(f: Bits)
    ensures WordOf(f) < Pow2(|f|)
  {
    if f != [] {
      WordBound(f[1..]);
    }
  }

  lemma WordFits(f: Bits)
    requires |f| == 32
    ensures WordOf(f) < 0x1_0000_0000
  {
    WordBound(f);
    assert Pow2(8) == 0x100 && Pow2(16) == 0x1_0000 && Pow2(24) == 0x100_0000 && Pow2(32) == 0x1_0000_0000;
  }

  // ---- What the bits weigh ----

  function Nibble(f: Bits, i: nat): nat
    requires i + 4 <= |f|
  {
    (if f[i] then 1 else 0) + (if f[i + 1] then 2 else 0) + (if f[i + 2] then 4 else 0) + (if f[i + 3] then 8 else 0)
  }

  lemma FromNibble(f: Bits, i: nat)
    requires i + 4 <= |f|
    ensures WordOf(f[i..]) == Nibble(f, i) + 16 * WordOf(f[i + 4..])
  {
    assert f[i..][1..] == f[i + 1..] && f[i + 1..][1..] == f[i + 2..];
    assert f[i + 2..][1..] == f[i + 3..] && f[i + 3..][1..] == f[i + 4..];
    assert WordOf(f[i + 3..]) == (if f[i + 3] then 1 else 0) + 2 * WordOf(f[i + 4..]);
    assert WordOf(f[i + 2..]) == (if f[i + 2] then 1 else 0) + 2 * WordOf(f[i + 3..]);
    assert WordOf(f[i + 1..]) == (if f[i + 1] then 1 else 0) + 2 * WordOf(f[i + 2..]);
  }

  // The hexadecimal digits of a word
  lemma Nibbles(f: Bits)
    requires |f| == 32
    ensures WordOf(f) == Nibble(f, 0) + 0x10 * Nibble(f, 4) + 0x100 * Nibble(f, 8) + 0x1000 * Nibble(f, 12)
      + 0x1_0000 * Nibble(f, 16) + 0x10_0000 * Nibble(f, 20) + 0x100_0000 * Nibble(f, 24) + 0x1000_0000 * Nibble(f, 28)
  {
    hide Nibble, WordOf;
    FromNibble(f, 0);
    FromNibble(f, 4);
    FromNibble(f, 8);
    FromNibble(f, 12);
    FromNibble(f, 16);
    FromNibble(f, 20);
    FromNibble(f, 24);
    FromNibble(f, 28);
    NoBits(f[32..]);
    assert f[0..] == f;
  }

  // A hexadecimal digit of a mask
  function MaskDigit(mask: set<nat>, i: nat): nat {
    (if i in mask then 1 else 0) + (if i + 1 in mask then 2 else 0) + (if i + 2 in mask then 4 else 0)
      + (if i + 3 in mask then 8 else 0)
  }

  // Of a word with all bits set, a mask leaves itself.
  lemma Masked(f: Bits, mask: set<nat>, i: nat)
    requires i + 4 <= |f| && forall j :: 0 <= j < |f| ==> f[j]
    ensures Nibble(And(f, mask), i) == MaskDigit(mask, i)
    ensures (forall j :: j in mask ==> j < i) ==> MaskDigit(mask, i) == 0
  {
  }

  lemma MaskDigits(f: Bits, mask: set<nat>)
    requires |f| == 32 && (forall j :: 0 <= j < |f| ==> f[j]) && forall j :: j in mask ==> j < 16
    ensures WordOf(And(f, mask)) ==
      MaskDigit(mask, 0) + 0x10 * MaskDigit(mask, 4) + 0x100 * MaskDigit(mask, 8) + 0x1000 * MaskDigit(mask, 12)
  {
    hide Nibble, And, MaskDigit, WordOf;
    Nibbles(And(f, mask));
    Masked(f, mask, 0);
    Masked(f, mask, 4);
    Masked(f, mask, 8);
    Masked(f, mask, 12);
    Masked(f, mask, 16);
    Masked(f, mask, 20);
    Masked(f, mask, 24);
    Masked(f, mask, 28);
  }

  lemma NoBits(f: Bits)
    requires f == []
    ensures WordOf(f) == 0
  {
  }
}
