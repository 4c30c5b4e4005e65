/** UTF-8 in both directions (core/string.c: AG_ImportUnicode and AG_ExportUnicode, core/string.h:
    the lengths).  Strings end at a NUL in C; here a string is the sequence of what comes before
    it, so that its bytes and code points are not zero.  Where the code joins the bits of two
    fields that do not overlap, the model adds. */
module Utf8 {

  import opened Options
  import Lists

  type Octet = x: int | 0 < x < 256 witness 1
  type Code = x: int | 0 < x < 0x1_0000_0000 witness 1

  // ---- One character ----

  // AG_CharLengthUTF8FromUCS4, with 0 for the error
  function CharLength(c: nat): (n: nat)
    ensures n <= 6 && (n == 0 <==> c > 0x7fffffff)
  {
    if c < 0x80 then 1
    else if c < 0x800 then 2
    else if c < 0x10000 then 3
    else if c < 0x200000 then 4
    else if c < 0x4000000 then 5
    else if c <= 0x7fffffff then 6
    else 0
  }

  // The bits ch1 that mark the first byte of a sequence of n bytes
  function Mark(n: nat): nat {
    if n == 1 then 0 else if n == 2 then 0xc0 else if n == 3 then 0xe0 else if n == 4 then 0xf0
    else if n == 5 then 0xf8 else 0xfc
  }

  // The number of values left for the bits of the character in such a byte
  function Room(n: nat): (r: nat)
    ensures r > 0
  {
    if n == 1 then 0x80 else if n == 2 then 0x20 else if n == 3 then 0x10 else if n == 4 then 8
    else if n == 5 then 4 else 2
  }

  // AG_CharLengthUTF8: what the first byte says the length is, with 0 for the error
  function LeadLength(b: nat): (n: nat)
    requires b < 256
    ensures n <= 6
  {
    if b / 128 == 0 then 1
    else if b / 32 == 0x6 then 2
    else if b / 16 == 0xe then 3
    else if b / 8 == 0x1e then 4
    else if b / 4 == 0x3e then 5
    else if b / 2 == 0x7e then 6
    else 0
  }

  // c without its last n groups of six bits
  function Shifted(c: nat, n: nat): nat {
    if n == 0 then c else Shifted(c / 64, n - 1)
  }

  // The bytes for the last n groups
  function Tail(c: nat, n: nat): (t: seq<Octet>)
    ensures |t| == n
  {
    if n == 0 then [] else [0x80 + Shifted(c, n - 1) % 64] + Tail(c, n - 1)
  }

  // The encoding of section 2 of RFC 2279
  function Encoded(c: Code): (s: seq<Octet>)
    requires c <= 0x7fffffff
    ensures |s| == CharLength(c)
  {
    var n := CharLength(c);
    FirstFits(c);
    [Mark(n) + Shifted(c, n - 1)] + Tail(c, n - 1)
  }

  // The low bits of b, as many as m has values for
  function Low(b: int, m: nat): nat
    requires m > 0
  {
    b % m
  }

  // acc followed by the six bits of every byte of t
  function Appended(acc: nat, t: seq<Octet>): nat
    decreases |t|
  {
    if t == [] then acc else Appended(acc * 64 + Low(t[0], 64), t[1..])
  }

  // The character of a sequence as long as its first byte says
  function CharOf(s: seq<Octet>): nat
    requires s != []
  {
    Appended(Low(s[0], Room(|s|)), s[1..])
  }

  predicate Continued(t: seq<Octet>) {
    forall i :: 0 <= i < |t| ==> 0x80 <= t[i] < 0xc0
  }

  // A sequence that is the encoding of a character: as long as its first byte says, continued
  // by bytes that start with the bits 10, and not longer than the character needs.
  predicate Shortest(s: seq<Octet>) {
    && s != [] && LeadLength(s[0]) == |s|
    && Continued(s[1..])
    && CharLength(CharOf(s)) == |s|
  }

  lemma FirstFits(c: nat)
    requires c <= 0x7fffffff
    ensures Shifted(c, CharLength(c) - 1) < Room(CharLength(c))
    ensures c > 0 && CharLength(c) == 1 ==> Shifted(c, CharLength(c) - 1) > 0
  {
    ShiftSteps(c);
  }

  lemma ShiftSteps(c: nat)
    ensures Shifted(c, 0) == c && Shifted(c, 1) == c / 64 && Shifted(c, 2) == c / 64 / 64
    ensures Shifted(c, 3) == c / 64 / 64 / 64 && Shifted(c, 4) == c / 64 / 64 / 64 / 64
    ensures Shifted(c, 5) == c / 64 / 64 / 64 / 64 / 64
  {
  }

  lemma {:induction false} ShiftedNext(c: nat, n: nat)
    ensures Shifted(c, n + 1) == Shifted(c, n) / 64
  {
    if n > 0 { ShiftedNext(c / 64, n - 1); }
  }

  // What Tail took off, Appended puts back.
  lemma {:induction false} TailBack(c: nat, n: nat)
    ensures Appended(Shifted(c, n), Tail(c, n)) == c
  {
    if n > 0 {
      ShiftedNext(c, n - 1);
      TailBack(c, n - 1);
    }
  }

  lemma {:induction false} AppendedBack(a: nat, t: seq<Octet>)
    requires Continued(t)
    ensures Shifted(Appended(a, t), |t|) == a && Tail(Appended(a, t), |t|) == t
    decreases |t|
  {
    if t != [] {
      var low := Low(t[0], 64);
      AppendedBack(a * 64 + low, t[1..]);
      ShiftedNext(Appended(a, t), |t| - 1);
      SixBits(a, low);
      assert 0x80 + low == t[0] && t == [t[0]] + t[1..];
    }
  }

  lemma SixBits(a: nat, low: nat)
    requires low < 64
    ensures (a * 64 + low) / 64 == a && (a * 64 + low) % 64 == low
  {
  }

  lemma {:induction false} TailRange(c: nat, n: nat)
    ensures Continued(Tail(c, n))
  {
    if n > 0 { TailRange(c, n - 1); }
  }

  lemma LeadBack(n: nat, f: nat)
    requires 1 <= n <= 6 && f < Room(n) && Mark(n) + f < 256
    ensures LeadLength(Mark(n) + f) == n && (Mark(n) + f) % Room(n) == f
  {
  }

  // The encoding of a character reads back, and is of the shortest form.
  lemma CharBack(c: Code)
    requires c <= 0x7fffffff
    ensures CharOf(Encoded(c)) == c && Shortest(Encoded(c))
  {
    var n := CharLength(c);
    FirstFits(c);
    LeadBack(n, Shifted(c, n - 1));
    TailBack(c, n - 1);
    TailRange(c, n - 1);
    assert Encoded(c)[1..] == Tail(c, n - 1);
  }

  // A sequence is the encoding of the character read from it if and only if it is of the
  // shortest form.
  lemma BytesBack(s: seq<Octet>)
    requires s != [] && LeadLength(s[0]) == |s|
    ensures Shortest(s) <==> 0 < CharOf(s) <= 0x7fffffff && Encoded(CharOf(s)) == s
  {
    var c := CharOf(s);
    if Shortest(s) {
      AppendedBack(Low(s[0], Room(|s|)), s[1..]);
      if |s| == 1 { assert s[1..] == []; }
      assert Encoded(c) == [s[0]] + s[1..];
    } else if 0 < c <= 0x7fffffff && Encoded(c) == s {
      CharBack(c);
    }
  }

  // ---- The table of section 2 of RFC 2279 ----

  function Row(c: Code): seq<nat>
    requires c <= 0x7fffffff
  {
    if c < 0x80 then [c]
    else if c < 0x800 then [0xc0 + c / 0x40, 0x80 + c % 0x40]
    else if c < 0x1_0000 then [0xe0 + c / 0x1000, 0x80 + c / 0x40 % 0x40, 0x80 + c % 0x40]
    else if c < 0x20_0000 then
      [0xf0 + c / 0x4_0000, 0x80 + c / 0x1000 % 0x40, 0x80 + c / 0x40 % 0x40, 0x80 + c % 0x40]
    else if c < 0x400_0000 then
      [0xf8 + c / 0x100_0000, 0x80 + c / 0x4_0000 % 0x40, 0x80 + c / 0x1000 % 0x40, 0x80 + c / 0x40 % 0x40,
       0x80 + c % 0x40]
    else
      [0xfc + c / 0x4000_0000, 0x80 + c / 0x100_0000 % 0x40, 0x80 + c / 0x4_0000 % 0x40, 0x80 + c / 0x1000 % 0x40,
       0x80 + c / 0x40 % 0x40, 0x80 + c % 0x40]
  }

  function Rows(us: seq<nat>): seq<nat>
    requires Encodable(us)
  {
    if us == [] then [] else Row(us[0]) + Rows(us[1..])
  }

  lemma ShiftedIs(c: nat)
    ensures Shifted(c, 0) == c && Shifted(c, 1) == c / 0x40 && Shifted(c, 2) == c / 0x1000
    ensures Shifted(c, 3) == c / 0x4_0000 && Shifted(c, 4) == c / 0x100_0000 && Shifted(c, 5) == c / 0x4000_0000
  {
    ShiftSteps(c);
  }

  lemma TailIs(c: nat, n: nat)
    ensures n > 0 ==> Tail(c, n) == [0x80 + Shifted(c, n - 1) % 0x40] + Tail(c, n - 1)
    ensures n == 0 ==> Tail(c, n) == []
  {
  }

  lemma TailsAre(c: nat)
    ensures var g := (i: nat) => 0x80 + Shifted(c, i) % 0x40;
      && Tail(c, 0) == [] && Tail(c, 1) == [g(0)] && Tail(c, 2) == [g(1), g(0)] && Tail(c, 3) == [g(2), g(1), g(0)]
      && Tail(c, 4) == [g(3), g(2), g(1), g(0)] && Tail(c, 5) == [g(4), g(3), g(2), g(1), g(0)]
  {
    hide Tail, Shifted;
    TailIs(c, 0);
    TailIs(c, 1);
    TailIs(c, 2);
    TailIs(c, 3);
    TailIs(c, 4);
    TailIs(c, 5);
  }

  // The bytes written are those of the table.
  lemma EncodedRow(c: Code)
    requires c <= 0x7fffffff
    ensures Encoded(c) == Row(c)
  {
    hide Tail, Shifted;
    ShiftedIs(c);
    TailsAre(c);
  }

  lemma {:induction false} EncodedRows(us: seq<nat>)
    requires Encodable(us)
    ensures EncodedAll(us) == Rows(us)
  {
    if us != [] {
      EncodedRow(us[0]);
      EncodedRows(us[1..]);
    }
  }

  lemma {:induction false} ShiftedAppended(a: nat, t: seq<Octet>)
    ensures Shifted(Appended(a, t), |t|) == a
    decreases |t|
  {
    if t != [] {
      var low := Low(t[0], 64);
      ShiftedAppended(a * 64 + low, t[1..]);
      ShiftedNext(Appended(a, t), |t| - 1);
      SixBits(a, low);
    }
  }

  // No sequence that reads as a character is shorter than the one written for it.
  lemma NoneShorter(s: seq<Octet>)
    requires s != [] && LeadLength(s[0]) == |s| && 0 < CharOf(s) <= 0x7fffffff
    ensures |Encoded(CharOf(s))| <= |s|
  {
    hide Shifted, Appended;
    var c := CharOf(s);
    ShiftedAppended(Low(s[0], Room(|s|)), s[1..]);
    ShiftSteps(c);
  }

  // Nor is any string shorter than the one written for the characters read from it.
  lemma {:induction false} NoStringShorter(s: seq<Octet>)
    requires Decoded(s).Some? && Encodable(Decoded(s).value)
    ensures |EncodedAll(Decoded(s).value)| <= |s|
    decreases |s|
  {
    if s != [] {
      var n := LeadLength(s[0]);
      if n <= |s| {
        var us := Decoded(s).value;
        assert us[0] == CharOf(s[..n]) && us[1..] == Decoded(s[n..]).value;
        NoneShorter(s[..n]);
        NoStringShorter(s[n..]);
      }
    }
  }

  // What is written for us is as in the table, and no string read as us is shorter.
  lemma Shortened(us: seq<nat>)
    requires Encodable(us)
    ensures EncodedAll(us) == Rows(us) && forall s :: Decoded(s) == Some(us) ==> |EncodedAll(us)| <= |s|
  {
    EncodedRows(us);
    forall s | Decoded(s) == Some(us)
      ensures |EncodedAll(us)| <= |s|
    {
      NoStringShorter(s);
    }
  }

  // What the first byte of a sequence says
  lemma LeadIs(b: nat)
    requires b < 0x100
    ensures LeadLength(b) == 1 <==> b < 0x80
    ensures LeadLength(b) == 2 <==> 0xc0 <= b < 0xe0
    ensures LeadLength(b) == 3 <==> 0xe0 <= b < 0xf0
    ensures LeadLength(b) == 4 <==> 0xf0 <= b < 0xf8
    ensures LeadLength(b) == 5 <==> 0xf8 <= b < 0xfc
    ensures LeadLength(b) == 6 <==> 0xfc <= b < 0xfe
  {
  }

  // ---- Strings ----

  predicate Encodable(us: seq<nat>) {
    forall i :: 0 <= i < |us| ==> 0 < us[i] <= 0x7fffffff
  }

  function EncodedAll(us: seq<nat>): seq<Octet>
    requires Encodable(us)
  {
    if us == [] then [] else Encoded(us[0]) + EncodedAll(us[1..])
  }

  // AG_LengthUTF8FromUCS4, with none for the error
  function LengthOf(us: seq<nat>): Option<nat> {
    if us == [] then Some(0)
    else if us[0] > 0x7fffffff || LengthOf(us[1..]).None? then None
    else Some(CharLength(us[0]) + LengthOf(us[1..]).value)
  }

  // What is read from s: none if a first byte is bad.  A sequence that the end of s cuts
  // short does not count as a character.
  function Decoded(s: seq<Octet>): Option<seq<nat>>
    decreases |s|
  {
    if s == [] then Some([])
    else
      var n := LeadLength(s[0]);
      if n == 0 then None
      else if |s| < n then Some([])
      else
        var rest := Decoded(s[n..]);
        if rest.None? then None else Some([CharOf(s[..n])] + rest.value)
  }

  // The end of s cuts a sequence short.
  predicate CutShort(s: seq<Octet>)
    decreases |s|
  {
    s != [] && var n := LeadLength(s[0]); n > |s| || (n > 0 && CutShort(s[n..]))
  }

  // Every sequence of s is whole and of the shortest form.
  predicate AllShortest(s: seq<Octet>)
    decreases |s|
  {
    s == [] || (var n := LeadLength(s[0]); 0 < n <= |s| && Shortest(s[..n]) && AllShortest(s[n..]))
  }

  // Export then import is the identity.
  lemma {:induction false} ExportBack(us: seq<nat>)
    requires Encodable(us)
    ensures var s := EncodedAll(us); Decoded(s) == Some(us) && !CutShort(s) && AllShortest(s)
  {
    if us != [] {
      var e, r := Encoded(us[0]), EncodedAll(us[1..]);
      CharBack(us[0]);
      ExportBack(us[1..]);
      Split(e, r);
      assert us == [us[0]] + us[1..];
    }
  }

  lemma Split(e: seq<Octet>, r: seq<Octet>)
    requires e != []
    ensures (e + r)[0] == e[0] && (e + r)[..|e|] == e && (e + r)[|e|..] == r
  {
  }

  // Import then export gives s back if and only if s is whole and of the shortest form.
  lemma {:induction false} ImportBack(s: seq<Octet>)
    ensures AllShortest(s) <==>
      Decoded(s).Some? && Encodable(Decoded(s).value) && EncodedAll(Decoded(s).value) == s
    decreases |s|
  {
    if s != [] {
      var n := LeadLength(s[0]);
      if 0 < n <= |s| {
        BytesBack(s[..n]);
        ImportBack(s[n..]);
        if Decoded(s).Some? && Encodable(Decoded(s).value) {
          EncodedFirst(s, Decoded(s).value, n);
        }
      }
    }
  }

  // The first sequence of an encoding is that of the first character.
  lemma EncodedFirst(s: seq<Octet>, us: seq<nat>, n: nat)
    requires us != [] && Encodable(us) && s != [] && n == LeadLength(s[0]) && 0 < n <= |s|
    ensures EncodedAll(us) == s <==> Encoded(us[0]) == s[..n] && EncodedAll(us[1..]) == s[n..]
  {
    CharBack(us[0]);
    Split(Encoded(us[0]), EncodedAll(us[1..]));
    assert s == s[..n] + s[n..];
  }

  lemma {:induction false} LengthIs(us: seq<nat>)
    requires forall i :: 0 <= i < |us| ==> us[i] > 0
    ensures LengthOf(us).Some? <==> Encodable(us)
    ensures LengthOf(us).Some? ==> LengthOf(us).value == |EncodedAll(us)|
  {
    if us != [] { LengthIs(us[1..]); }
  }

  // ---- Import ----

  // The byte at position i, which is the terminator behind the last
  function At(s: seq<Octet>, i: nat): nat
    requires i <= |s|
  {
    if i < |s| then s[i] else 0
  }

  function Before(done: seq<nat>, o: Option<seq<nat>>): Option<seq<nat>> {
    if o.None? then None else Some(done + o.value)
  }

  // One turn of the loops over s
  lemma DecodeStep(s: seq<Octet>, i: nat, done: seq<nat>)
    requires i < |s| && 0 < LeadLength(s[i]) <= |s| - i
    ensures var n := LeadLength(s[i]);
      && CutShort(s[i..]) == CutShort(s[i + n..])
      && Before(done, Decoded(s[i..])) == Before(done + [CharOf(s[i..i + n])], Decoded(s[i + n..]))
  {
    var n := LeadLength(s[i]);
    assert s[i..][n..] == s[i + n..] && s[i..][..n] == s[i..i + n];
    if Decoded(s[i + n..]).Some? {
      assert done + ([CharOf(s[i..i + n])] + Decoded(s[i + n..]).value) ==
        done + [CharOf(s[i..i + n])] + Decoded(s[i + n..]).value;
    }
  }

  // Where no whole sequence starts the loops end.
  lemma DecodeEnd(s: seq<Octet>, i: nat, done: seq<nat>)
    requires i <= |s| && (i < |s| ==> LeadLength(s[i]) == 0 || LeadLength(s[i]) > |s| - i)
    ensures Before(done, Decoded(s[i..])) == if i < |s| && LeadLength(s[i]) == 0 then None else Some(done)
    ensures CutShort(s[i..]) == (i < |s| && LeadLength(s[i]) > 0)
  {
    assert done + [] == done;
  }

  // AG_LengthUTF8
  method LengthUTF8(s: seq<Octet>) returns (rc: int, rv: nat)
    ensures rc == if Decoded(s).None? then -1 else 0
    ensures rc == 0 ==> rv == |Decoded(s).value|
  {
    hide Decoded, CutShort, CharOf;
    rc, rv := 0, 0;
    var c := 0;
    ghost var done := [];
    DecodeStart(s);
    while true
      invariant c <= |s| && rv == |done| && Before(done, Decoded(s[c..])) == Decoded(s)
      decreases |s| - c
    {
      var cLen := LeadLength(At(s, c));
      if cLen == 0 {
        DecodeEnd(s, c, done);
        return -1, rv;
      }
      for i := 0 to cLen
        invariant c + i <= |s|
      {
        if At(s, c + i) == 0 {
          DecodeEnd(s, c, done);
          return;
        }
      }
      DecodeStep(s, c, done);
      done := done + [CharOf(s[c..c + cLen])];
      rv := rv + 1;
      c := c + cLen;
    }
  }

  // The cases of the switch: the bits of n bytes put together
  function Joined(s: seq<Octet>, i: nat, n: nat): (u: nat)
    requires 1 <= n <= 6 && i + n <= |s|
  {
    match n
    case 1 => s[i]
    case 2 => Low(s[i], 0x20) * 0x40 + Low(s[i + 1], 0x40)
    case 3 => Low(s[i], 0x10) * 0x1000 + Low(s[i + 1], 0x40) * 0x40 + Low(s[i + 2], 0x40)
    case 4 => Low(s[i], 8) * 0x40000 + Low(s[i + 1], 0x40) * 0x1000 + Low(s[i + 2], 0x40) * 0x40 + Low(s[i + 3], 0x40)
    case 5 =>
      Low(s[i], 4) * 0x1000000 + Low(s[i + 1], 0x40) * 0x40000 + Low(s[i + 2], 0x40) * 0x1000 +
      Low(s[i + 3], 0x40) * 0x40 + Low(s[i + 4], 0x40)
    case _ =>
      Low(s[i], 2) * 0x40000000 + Low(s[i + 1], 0x40) * 0x1000000 + Low(s[i + 2], 0x40) * 0x40000 +
      Low(s[i + 3], 0x40) * 0x1000 + Low(s[i + 4], 0x40) * 0x40 + Low(s[i + 5], 0x40)
  }

  // The bits of the first k bytes of a sequence
  function AfterBytes(b: seq<Octet>, k: nat): nat
    requires 1 <= k <= |b|
  {
    if k == 1 then Low(b[0], Room(|b|)) else AfterBytes(b, k - 1) * 64 + Low(b[k - 1], 64)
  }

  lemma {:induction false} BytesAfter(b: seq<Octet>, k: nat)
    requires 1 <= k <= |b|
    ensures CharOf(b) == Appended(AfterBytes(b, k), b[k..])
  {
    if k > 1 {
      BytesAfter(b, k - 1);
      assert b[k - 1..][1..] == b[k..];
    }
  }

  lemma LowSelf(b: nat)
    requires b < 0x80
    ensures Low(b, 0x80) == b
  {
  }

  // They are what the groups of six bits appended one by one make.
  lemma JoinedIs(s: seq<Octet>, i: nat, n: nat)
    requires 1 <= n <= 6 && i + n <= |s| && (n == 1 ==> s[i] < 0x80)
    ensures Joined(s, i, n) == CharOf(s[i..i + n])
  {
    hide Low, AfterBytes, CharOf;
    if n == 1 { LowSelf(s[i]); }
    var b := s[i..i + n];
    BytesAfter(b, n);
    assert b[n..] == [];
    AfterFirst(b);
    if n > 1 { AfterNext(b, 1); }
    if n > 2 { AfterNext(b, 2); }
    if n > 3 { AfterNext(b, 3); }
    if n > 4 { AfterNext(b, 4); }
    if n > 5 { AfterNext(b, 5); }
  }

  lemma AfterFirst(b: seq<Octet>)
    requires b != []
    ensures AfterBytes(b, 1) == Low(b[0], Room(|b|))
  {
  }

  lemma AfterNext(b: seq<Octet>, k: nat)
    requires 1 <= k < |b|
    ensures AfterBytes(b, k + 1) == AfterBytes(b, k) * 64 + Low(b[k], 64)
  {
  }

  // AG_ImportUnicode for UTF-8.  When the end of s cuts a sequence short, the code takes the
  // terminator for a byte of it and goes on behind; `overrun` stands for that.
  method ImportUnicode(s: seq<Octet>) returns (ucs: array?<nat>, outLen: nat, overrun: bool)
    ensures ucs == null <==> Decoded(s).None?
    ensures ucs != null ==> overrun == CutShort(s)
    ensures ucs != null ==> fresh(ucs) && ucs.Length == |Decoded(s).value| + 1
    ensures ucs != null && !overrun ==>
      outLen == |Decoded(s).value| && ucs[..outLen] == Decoded(s).value && ucs[outLen] == 0
  {
    hide Decoded, CutShort, CharOf, Room;
    ucs, outLen, overrun := null, 0, false;
    var rc, utf8len := LengthUTF8(s);
    if rc == -1 {
      return;
    }
    ucs := new nat[utf8len + 1];
    var i, j := 0, 0;
    ghost var all := Decoded(s).value;
    DecodeStart(s);
    while i < |s|
      invariant i <= |s| && j <= |all| && CutShort(s) == CutShort(s[i..])
      invariant ucs[..j] == all[..j] && Before(all[..j], Decoded(s[i..])) == Some(all)
    {
      var n := LeadLength(s[i]);
      if n > |s| - i {
        DecodeEnd(s, i, all[..j]);
        overrun := true;
        return;
      }
      if n == 0 {
        DecodeEnd(s, i, all[..j]);
      }
      DecodeStep(s, i, all[..j]);
      JoinedIs(s, i, n);
      Grown(all, j, CharOf(s[i..i + n]), Decoded(s[i + n..]));
      ucs[j] := Joined(s, i, n);
      i := i + n;
      j := j + 1;
    }
    DecodeEnd(s, i, all[..j]);
    ucs[j] := 0;
    outLen := j;
  }

  lemma DecodeStart(s: seq<Octet>)
    ensures s[0..] == s && Before([], Decoded(s)) == Decoded(s)
  {
    if Decoded(s).Some? { assert [] + Decoded(s).value == Decoded(s).value; }
  }

  lemma Grown(all: seq<nat>, j: nat, u: nat, o: Option<seq<nat>>)
    requires j <= |all| && Before(all[..j] + [u], o) == Some(all)
    ensures j < |all| && all[j] == u && all[..j + 1] == all[..j] + [u]
  {
    assert all == all[..j] + [u] + o.value;
  }

  // ---- Export ----

  // AG_LengthUTF8FromUCS4
  method LengthUTF8FromUCS4(us: seq<Code>) returns (rc: int, rv: nat)
    ensures rc == if LengthOf(us).Some? then 0 else -1
    ensures rc == 0 ==> rv == LengthOf(us).value
    ensures rc == 0 <==> Encodable(us)
    ensures rc == 0 ==> rv == |Rows(us)| && forall s :: Decoded(s) == Some(us) ==> rv <= |s|
  {
    hide Rows, Decoded;
    LengthIs(us);
    if Encodable(us) { Shortened(us); }
    rc, rv := 0, 0;
    assert us[0..] == us;
    for c := 0 to |us|
      invariant LengthOf(us) == More(rv, LengthOf(us[c..]))
    {
      assert us[c..][1..] == us[c + 1..];
      var cLen := CharLength(us[c]);
      if cLen == 0 {
        return -1, rv;
      }
      rv := rv + cLen;
    }
  }

  function More(n: nat, o: Option<nat>): Option<nat> {
    if o.None? then None else Some(n + o.value)
  }

  lemma {:induction false} EncodedSplit(a: seq<nat>, b: seq<nat>)
    requires Encodable(a) && Encodable(b)
    ensures Encodable(a + b) && EncodedAll(a + b) == EncodedAll(a) + EncodedAll(b)
  {
    hide Encoded, EncodedAll;
    if a == [] {
      assert a + b == b;
      EncodedNone(a);
    } else {
      EncodedSplit(a[1..], b);
      assert (a + b)[0] == a[0] && (a + b)[1..] == a[1..] + b;
      EncodedStep(a);
      EncodedStep(a + b);
      Lists.Assoc(Encoded(a[0]), EncodedAll(a[1..]), EncodedAll(b));
    }
  }

  lemma EncodedStep(us: seq<nat>)
    requires us != [] && Encodable(us)
    ensures EncodedAll(us) == Encoded(us[0]) + EncodedAll(us[1..])
  {
  }

  lemma EncodedOne(u: nat)
    requires 0 < u <= 0x7fffffff
    ensures EncodedAll([u]) == Encoded(u)
  {
    assert Encoded(u) + [] == Encoded(u);
  }

  lemma EncodedMore(us: seq<nat>, k: nat)
    requires k < |us| && Encodable(us[..k]) && 0 < us[k] <= 0x7fffffff
    ensures Encodable(us[..k + 1]) && EncodedAll(us[..k + 1]) == EncodedAll(us[..k]) + Encoded(us[k])
  {
    EncodedOne(us[k]);
    EncodedSplit(us[..k], [us[k]]);
    assert us[..k + 1] == us[..k] + [us[k]];
  }

  // If all characters can be encoded, the first k and the next take no more than all.
  lemma EncodedFits(us: seq<nat>, k: nat)
    requires k < |us| && Encodable(us)
    ensures |EncodedAll(us[..k])| + CharLength(us[k]) <= |EncodedAll(us)|
  {
    EncodedMore(us, k);
    EncodedSplit(us[..k + 1], us[k + 1..]);
    assert us == us[..k + 1] + us[k + 1..];
  }

  // The character c in its chlen bytes, from the last to the first
  method PutChar(dst: array<nat>, at: nat, c: Code, chlen: nat, ch1: nat)
    requires c <= 0x7fffffff && chlen == CharLength(c) && ch1 == Mark(chlen) && at + chlen <= dst.Length
    modifies dst
    ensures dst[at..at + chlen] == Encoded(c)
    ensures dst[..at] == old(dst[..at]) && dst[at + chlen..] == old(dst[at + chlen..])
  {
    hide Shifted, Tail, Encoded, CharLength, Mark;
    var uch: nat := c;
    var i := chlen - 1;
    ShiftedNone(c);
    EncodedIs(c);
    while i > 0
      invariant 0 <= i < chlen && uch == Shifted(c, chlen - 1 - i)
      invariant dst[at + i + 1..at + chlen] == Tail(c, chlen - 1 - i)
      invariant dst[..at] == old(dst[..at]) && dst[at + chlen..] == old(dst[at + chlen..])
    {
      ghost var was := dst[at + i + 1..at + chlen];
      dst[at + i] := 0x80 + uch % 64;
      SliceHead(dst[..], at + i, at + chlen);
      assert dst[at + i + 1..at + chlen] == was;
      ShiftedNext(c, chlen - 1 - i);
      TailNext(c, chlen - 1 - i);
      uch := uch / 64;
      i := i - 1;
    }
    ghost var was := dst[at + 1..at + chlen];
    dst[at] := ch1 + uch;
    SliceHead(dst[..], at, at + chlen);
    assert dst[at + 1..at + chlen] == was;
  }

  lemma SliceHead(d: seq<nat>, from: nat, to: nat)
    requires from < to <= |d|
    ensures d[from..to] == [d[from]] + d[from + 1..to]
  {
  }

  lemma ShiftedNone(c: nat)
    ensures Shifted(c, 0) == c && Tail(c, 0) == []
  {
  }

  lemma TailNext(c: nat, n: nat)
    ensures Tail(c, n + 1) == [0x80 + Shifted(c, n) % 64] + Tail(c, n)
  {
  }

  lemma EncodedIs(c: Code)
    requires c <= 0x7fffffff
    ensures var n := CharLength(c);
      n > 0 && |Encoded(c)| == n && Encoded(c) == [Mark(n) + Shifted(c, n - 1)] + Tail(c, n - 1)
  {
  }

  // AG_ExportUnicode for UTF-8.  k is the number of characters written.
  method ExportUnicode(dst: array<nat>, us: seq<Code>, dstSize: nat) returns (rc: int, ghost k: nat)
    requires dstSize <= dst.Length && dst.Length > 0
    modifies dst
    ensures rc == if dstSize == 0 || (LengthOf(us).Some? && LengthOf(us).value + 1 <= dstSize) then 0 else -1
    ensures k <= |us| && Encodable(us[..k]) && (rc == 0 && dstSize > 0 ==> k == |us|)
    ensures var n := |EncodedAll(us[..k])|;
      && n < dst.Length && dst[..n] == EncodedAll(us[..k]) == Rows(us[..k])
      && (rc == 0 ==> dst[n] == 0) && dst[n + 1..] == old(dst[n + 1..]) && (rc != 0 ==> dst[n] == old(dst[n]))
    ensures forall s :: Decoded(s) == Some(us[..k]) ==> |EncodedAll(us[..k])| <= |s|
  {
    hide CharLength, Mark, Encoded, EncodedAll, LengthOf, Rows, Decoded;
    var len, i := 0, 0;
    EncodedNone(us[..0]);
    LengthIs(us);
    while i < |us| && len < dstSize
      invariant i <= |us| && Encodable(us[..i]) && len == |EncodedAll(us[..i])|
      invariant len < dst.Length && dst[..len] == EncodedAll(us[..i]) && dst[len..] == old(dst[len..])
      invariant if dstSize > 0 then len + 1 <= dstSize else i == 0
    {
      var chlen := CharLength(us[i]);
      if chlen == 0 {
        Shortened(us[..i]);
        return -1, i;
      }
      if len + chlen + 1 > dstSize {
        if Encodable(us) { EncodedFits(us, i); }
        Shortened(us[..i]);
        return -1, i;
      }
      EncodedMore(us, i);
      PutChar(dst, len, us[i], chlen, Mark(chlen));
      Joining(dst[..], EncodedAll(us[..i]), Encoded(us[i]));
      len := len + chlen;
      i := i + 1;
    }
    Shortened(us[..i]);
    dst[len] := 0;
    assert i == |us| ==> us[..i] == us;
    rc, k := 0, i;
  }

  lemma EncodedNone(us: seq<nat>)
    requires us == []
    ensures EncodedAll(us) == []
  {
  }

  lemma Joining(d: seq<nat>, a: seq<Octet>, b: seq<Octet>)
    requires |a| + |b| <= |d| && d[..|a|] == a && d[|a|..|a| + |b|] == b
    ensures d[..|a| + |b|] == a + b
  {
  }
}
