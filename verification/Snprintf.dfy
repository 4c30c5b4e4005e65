/** The formatter of core/snprintf.c.  Integers are unbounded except where a value of a C type is
    taken from an argument (int has 32 bits and long has 64); what the formatter of floating
    point numbers writes is a parameter. */
module Snprintf {

  import opened Options
  import opened Words

  datatype Flags = Flags(minus: bool, plus: bool, space: bool, num: bool, zero: bool, up: bool, unsigned: bool)

  const NOFLAGS := Flags(false, false, false, false, false, false, false)

  datatype Size = Standard | Short | Long | LongDouble | LongLong

  // An argument, for whichever type it is taken as
  datatype Arg = Arg(num: int, text: Option<string>)

  type Args = nat -> Arg

  // What fmtfp writes
  type Floats = (Arg, Size, int, int, Flags) -> string

  function Max(a: int, b: int): int {
    if a < b then b else a
  }

  function Min(a: int, b: int): int {
    if a < b then a else b
  }

  function Repeat(c: char, n: int): (s: string)
    ensures |s| == Max(n, 0) && forall i :: 0 <= i < |s| ==> s[i] == c
  {
    if n <= 0 then [] else [c] + Repeat(c, n - 1)
  }

  // ---- Output ----

  // The buffer, the number of characters in it, and all characters given to it
  class Out {
    const buffer: array<char>
    const maxlen: nat
    var currlen: nat
    ghost var text: string

    ghost predicate Valid()
      reads this, buffer
    {
      maxlen <= buffer.Length && currlen == Min(|text|, maxlen) && buffer[..currlen] == text[..currlen]
    }

    constructor (buffer: array<char>, maxlen: nat)
      requires maxlen <= buffer.Length
      ensures Valid() && text == [] && this.buffer == buffer && this.maxlen == maxlen
    {
      this.buffer, this.maxlen, currlen, text := buffer, maxlen, 0, [];
    }

    // dopr_outch
    method Put(c: char)
      requires Valid()
      modifies this`currlen, this`text, buffer
      ensures Valid() && text == old(text) + [c] && buffer[maxlen..] == old(buffer[maxlen..])
    {
      text := text + [c];
      if currlen < maxlen {
        buffer[currlen] := c;
        currlen := currlen + 1;
      }
    }

    method PutMany(c: char, n: int)
      requires Valid()
      modifies this`currlen, this`text, buffer
      ensures Valid() && text == old(text) + Repeat(c, n) && buffer[maxlen..] == old(buffer[maxlen..])
    {
      var k := n;
      while k > 0
        invariant k <= Max(n, 0) && (n > 0 ==> k >= 0)
        invariant Valid() && text + Repeat(c, k) == old(text) + Repeat(c, n)
        invariant buffer[maxlen..] == old(buffer[maxlen..])
      {
        ghost var was := text;
        Put(c);
        k := k - 1;
        assert was + ([c] + Repeat(c, k)) == text + Repeat(c, k);
      }
      assert text + [] == text;
    }
  }

  // ---- Integers ----

  // 'd' and 'i'
  function SignedArg(n: int, size: Size): int {
    if size == Long || size == LongLong then Int64(n) else Int32(n)
  }

  // 'o', 'u', 'x' and 'X': put into a long
  function UnsignedArg(n: int, size: Size): int {
    if size == Long || size == LongLong then Int64(n) else Uint32(n)
  }

  function Sign(value: int, fl: Flags): (s: string)
    ensures |s| <= 1
  {
    if fl.unsigned then []
    else if value < 0 then "-"
    else if fl.plus then "+"
    else if fl.space then " "
    else []
  }

  function Magnitude(value: int, fl: Flags): nat {
    if !fl.unsigned && value < 0 then -value else value % 0x1_0000_0000_0000_0000
  }

  function DigitChar(d: nat, caps: bool): char
    requires d < 16
  {
    if caps then "0123456789ABCDEF"[d] else "0123456789abcdef"[d]
  }

  // The value of a digit of either case
  function DigitValue(c: char): int {
    if '0' <= c <= '9' then c as int - '0' as int
    else if 'A' <= c <= 'F' then c as int - 'A' as int + 10
    else c as int - 'a' as int + 10
  }

  // All digits of u
  function Numeral(u: nat, base: nat, caps: bool): (s: string)
    requires 2 <= base <= 16
    ensures s != []
  {
    if u < base then [DigitChar(u, caps)] else Numeral(u / base, base, caps) + [DigitChar(u % base, caps)]
  }

  // What the buffer of digits keeps of them
  function Kept(s: string): (r: string)
    ensures |r| == Min(|s|, 19)
  {
    if |s| > 19 then s[|s| - 19..] else s
  }

  // The digits with the zeros, signs and spaces around them
  function Padded(digits: string, sign: string, min: int, max: int, fl: Flags): string {
    var zeros, spaces := Max(Max(max, 0) - |digits|, 0), Max(min - Max(max, |digits|) - |sign|, 0);
    var number := sign + Repeat('0', if fl.zero then Max(zeros, spaces) else zeros) + digits;
    var pad := Repeat(' ', if fl.zero then 0 else spaces);
    if fl.minus then number + pad else pad + number
  }

  function IntText(value: int, base: nat, min: int, max: int, fl: Flags): string
    requires 2 <= base <= 16
  {
    Padded(Kept(Numeral(Magnitude(value, fl), base, fl.up)), Sign(value, fl), min, max, fl)
  }

  // digits backwards in the buffer
  ghost predicate Backwards(convert: array<char>, digits: string)
    reads convert
  {
    |digits| <= convert.Length && forall i :: 0 <= i < |digits| ==> convert[i] == digits[|digits| - 1 - i]
  }

  lemma DivisionFits(u: nat, base: nat)
    requires base >= 2
    ensures u / base >= 0 && (u / base == 0 <==> u < base) && 0 <= u % base < base && (u < base ==> u % base == u)
    ensures u > 0 ==> u / base < u
  {
  }

  lemma NumeralLast(u: nat, base: nat, caps: bool)
    requires 2 <= base <= 16
    ensures var n := Numeral(u, base, caps);
      && n[|n| - 1] == DigitChar(u % base, caps)
      && (u / base == 0 <==> u < base)
      && n[..|n| - 1] == if u / base == 0 then [] else Numeral(u / base, base, caps)
  {
    hide DigitChar;
    DivisionFits(u, base);
  }

  // The loop that takes the digits off, and the number of them
  method Convert(u: nat, base: nat, caps: bool) returns (convert: array<char>, place: nat)
    requires 2 <= base <= 16
    ensures fresh(convert) && convert.Length == 20 && place == |Kept(Numeral(u, base, caps))|
    ensures Backwards(convert, Kept(Numeral(u, base, caps)))
  {
    hide Numeral;
    convert := new char[20];
    var uvalue: nat := u;
    place := 0;
    ghost var n := Numeral(u, base, caps);
    while true
      invariant place < 20 && place < |n| && n[..|n| - place] == Numeral(uvalue, base, caps)
      invariant forall i :: 0 <= i < place ==> convert[i] == n[|n| - 1 - i]
      decreases 20 - place
    {
      DivisionFits(uvalue, base);
      NumeralLast(uvalue, base, caps);
      assert n[..|n| - place][..|n| - place - 1] == n[..|n| - place - 1];
      convert[place] := DigitChar(uvalue % base, caps);
      place := place + 1;
      uvalue := uvalue / base;
      if uvalue == 0 || place == 20 {
        break;
      }
    }
    if place == 20 {
      place := place - 1;
    }
    convert[place] := '\0';
  }

  // The digits from the last in the buffer to the first
  method PutDigits(out: Out, convert: array<char>, count: nat, ghost digits: string)
    requires out.Valid() && Backwards(convert, digits) && convert != out.buffer && count == |digits|
    modifies out`currlen, out`text, out.buffer
    ensures out.Valid() && out.text == old(out.text) + digits
    ensures out.buffer[out.maxlen..] == old(out.buffer[out.maxlen..])
  {
    var place := count;
    while place > 0
      invariant 0 <= place <= count && out.Valid() && out.text == old(out.text) + digits[..count - place]
      invariant out.buffer[out.maxlen..] == old(out.buffer[out.maxlen..])
    {
      place := place - 1;
      out.Put(convert[place]);
      assert digits[..count - place] == digits[..count - place - 1] + [convert[place]];
    }
    assert digits[..count] == digits;
  }

  // Spaces before if spadlen is positive, behind if it is negative
  function Around(digits: string, signvalue: char, zpadlen: int, spadlen: int): string {
    Repeat(' ', spadlen) + (if signvalue != '\0' then [signvalue] else []) + Repeat('0', zpadlen) + digits +
      Repeat(' ', -spadlen)
  }

  method Emit(out: Out, convert: array<char>, count: nat, signvalue: char, zpadlen: int, spadlen: int,
      ghost digits: string)
    requires out.Valid() && Backwards(convert, digits) && convert != out.buffer && count == |digits|
    modifies out`currlen, out`text, out.buffer
    ensures out.Valid() && out.text == old(out.text) + Around(digits, signvalue, zpadlen, spadlen)
    ensures out.buffer[out.maxlen..] == old(out.buffer[out.maxlen..])
  {
    hide Repeat, Backwards;
    out.PutMany(' ', spadlen);
    if signvalue != '\0' {
      out.Put(signvalue);
    }
    out.PutMany('0', zpadlen);
    Assoc3(old(out.text), Repeat(' ', spadlen), if signvalue != '\0' then [signvalue] else [], Repeat('0', zpadlen));
    PutDigits(out, convert, count, digits);
    out.PutMany(' ', -spadlen);
  }

  // fmtint
  method FmtInt(out: Out, value: int, base: nat, min: int, max: int, fl: Flags)
    requires out.Valid() && 2 <= base <= 16
    modifies out`currlen, out`text, out.buffer
    ensures out.Valid() && out.text == old(out.text) + IntText(value, base, min, max, fl)
    ensures out.buffer[out.maxlen..] == old(out.buffer[out.maxlen..])
    ensures Field(out.text[|old(out.text)|..], value, base, min, max, fl)
  {
    hide Numeral, Kept, Repeat, Backwards, Field;
    FieldOf(value, base, min, max, fl);
    var prec := if max < 0 then 0 else max;
    var uvalue := value % 0x1_0000_0000_0000_0000;
    var signvalue := '\0';
    if !fl.unsigned {
      if value < 0 {
        signvalue := '-';
        uvalue := -value;
      } else if fl.plus {
        signvalue := '+';
      } else if fl.space {
        signvalue := ' ';
      }
    }
    var convert, place := Convert(uvalue, base, fl.up);
    var zpadlen, spadlen := Pads(place, prec, min, signvalue != '\0', fl);
    ghost var digits := Kept(Numeral(Magnitude(value, fl), base, fl.up));
    AroundIs(digits, signvalue, Sign(value, fl), min, max, fl, zpadlen, spadlen);
    Emit(out, convert, place, signvalue, zpadlen, spadlen, digits);
  }

  // How many zeros and spaces there are to be, the latter negative when they come behind
  method Pads(place: nat, prec: nat, min: int, signed: bool, fl: Flags) returns (zpadlen: int, spadlen: int)
    ensures var zeros, spaces := Max(prec - place, 0), Max(min - Max(prec, place) - if signed then 1 else 0, 0);
      && zpadlen == (if fl.zero then Max(zeros, spaces) else zeros)
      && spadlen == if fl.zero then 0 else if fl.minus then -spaces else spaces
  {
    zpadlen := prec - place;
    spadlen := min - Max(prec, place) - if signed then 1 else 0;
    if zpadlen < 0 {
      zpadlen := 0;
    }
    if spadlen < 0 {
      spadlen := 0;
    }
    if fl.zero {
      zpadlen := Max(zpadlen, spadlen);
      spadlen := 0;
    }
    if fl.minus {
      spadlen := -spadlen;
    }
  }

  lemma AroundIs(digits: string, signvalue: char, sign: string, min: int, max: int, fl: Flags, zpadlen: int,
      spadlen: int)
    requires sign == if signvalue != '\0' then [signvalue] else []
    requires var zeros, spaces := Max(Max(max, 0) - |digits|, 0), Max(min - Max(max, |digits|) - |sign|, 0);
      && zpadlen == (if fl.zero then Max(zeros, spaces) else zeros)
      && spadlen == if fl.zero then 0 else if fl.minus then -spaces else spaces
    ensures Around(digits, signvalue, zpadlen, spadlen) == Padded(digits, sign, min, max, fl)
  {
  }

  lemma Assoc3(t: string, a: string, b: string, c: string)
    ensures ((t + a) + b) + c == t + (a + b + c) && (t + a) + [] == t + a
  {
  }

  // ---- What the text of an integer says ----

  function Pow(base: nat, n: nat): nat {
    if n == 0 then 1 else base * Pow(base, n - 1)
  }

  function Value(s: string, base: nat): int {
    if s == [] then 0 else Value(s[..|s| - 1], base) * base + DigitValue(s[|s| - 1])
  }

  predicate Digits(s: string, base: nat) {
    forall i :: 0 <= i < |s| ==> 0 <= DigitValue(s[i]) < base && s[i] !in " +-"
  }

  lemma DigitBack(d: nat, caps: bool)
    requires d < 16
    ensures DigitValue(DigitChar(d, caps)) == d && DigitChar(d, caps) !in " +-"
  {
  }

  // One more digit behind the others
  lemma DigitBehind(n: string, base: nat, c: char)
    requires Digits(n, base) && 0 <= DigitValue(c) < base && c !in " +-"
    ensures Digits(n + [c], base) && Value(n + [c], base) == Value(n, base) * base + DigitValue(c)
  {
    assert (n + [c])[..|n|] == n;
  }

  lemma {:induction false} NumeralBack(u: nat, base: nat, caps: bool)
    requires 2 <= base <= 16
    ensures var n := Numeral(u, base, caps); Digits(n, base) && Value(n, base) == u
  {
    hide DigitChar, DigitValue, Value, Digits;
    DivisionFits(u, base);
    DigitBack(u % base, caps);
    Divided(u, base);
    if u < base {
      NoDigits(base);
      DigitBehind([], base, DigitChar(u, caps));
      assert [] + [DigitChar(u, caps)] == [DigitChar(u, caps)];
    } else {
      NumeralBack(u / base, base, caps);
      DigitBehind(Numeral(u / base, base, caps), base, DigitChar(u % base, caps));
    }
  }

  lemma NoDigits(base: nat)
    ensures Digits([], base) && Value([], base) == 0
  {
  }

  lemma Divided(u: nat, base: nat)
    requires base > 0
    ensures u / base * base + u % base == u
  {
  }

  lemma ModTimes(a: nat, m: nat, b: nat, d: nat)
    requires m > 0 && d < b
    ensures m * b > 0 && (a % m) * b + d == (a * b + d) % (m * b)
  {
    var q, r := a / m, a % m;
    assert a == q * m + r;
    assert r * b + d < m * b by { assert (r + 1) * b <= m * b; }
    assert a * b + d == q * (m * b) + (r * b + d);
    Remains(q, m * b, r * b + d);
  }

  lemma Remains(q: nat, m: nat, r: nat)
    requires r < m
    ensures (q * m + r) % m == r
  {
    var x := q * m + r;
    var a := x / m;
    Divided(x, m);
    assert a < q ==> (a + 1) * m <= q * m;
    assert a > q ==> (q + 1) * m <= a * m;
  }

  lemma {:induction false} ValueNat(s: string, base: nat)
    requires Digits(s, base)
    ensures Value(s, base) >= 0
  {
    hide Value, DigitValue;
    NoDigits(base);
    if s != [] {
      ValueNext(s, base);
      ValueNat(s[..|s| - 1], base);
    }
  }

  lemma ValueNext(s: string, base: nat)
    requires s != []
    ensures Value(s, base) == Value(s[..|s| - 1], base) * base + DigitValue(s[|s| - 1])
  {
  }

  // The last k digits are what remains modulo a power of the base.
  lemma {:induction false} LastDigits(s: string, base: nat, k: nat)
    requires base >= 2 && Digits(s, base) && k <= |s|
    ensures Pow(base, k) > 0 && Value(s[|s| - k..], base) == Value(s, base) % Pow(base, k)
    decreases |s|
  {
    hide DigitValue, Value, Pow;
    if k == 0 {
      assert s[|s| - k..] == "";
      NoDigits(base);
      PowNone(base);
    } else {
      var n, t := |s| - 1, s[|s| - k..];
      LastDigits(s[..n], base, k - 1);
      LastButOne(s, k);
      ValueNat(s[..n], base);
      ValueNext(s, base);
      ValueNext(t, base);
      PowTimes(base, k);
      ModTimes(Value(s[..n], base), Pow(base, k - 1), base, DigitValue(s[n]));
    }
  }

  lemma LastButOne(s: string, k: nat)
    requires 0 < k <= |s|
    ensures var n := |s| - 1; s[|s| - k..][..k - 1] == s[..n][n - (k - 1)..]
  {
  }

  lemma PowNone(base: nat)
    ensures Pow(base, 0) == 1
  {
  }

  lemma PowTimes(base: nat, k: nat)
    requires k > 0
    ensures Pow(base, k) == Pow(base, k - 1) * base
  {
  }

  lemma PowPositive(base: nat, k: nat)
    requires base > 0
    ensures Pow(base, k) > 0
  {
  }

  lemma Below(u: nat, base: nat, m: nat)
    requires base > 0
    ensures u < base * m <==> u / base < m
  {
    Divided(u, base);
    if u / base < m {
      assert (u / base + 1) * base <= m * base;
    } else {
      assert u / base * base >= m * base;
    }
  }

  lemma PowStep(u: nat, base: nat, k: nat)
    requires base > 0 && k > 1
    ensures u < Pow(base, k) <==> u / base < Pow(base, k - 1)
  {
    PowPositive(base, k - 1);
    Below(u, base, Pow(base, k - 1));
  }

  lemma PowLarge(base: nat, k: nat)
    requires base > 0 && k > 0
    ensures Pow(base, k) >= base && (k == 1 ==> Pow(base, k) == base)
  {
    PowPositive(base, k - 1);
    assert base * Pow(base, k - 1) >= base * 1;
  }

  lemma NumeralLength(u: nat, base: nat, caps: bool)
    requires 2 <= base <= 16
    ensures |Numeral(u, base, caps)| == if u < base then 1 else 1 + |Numeral(u / base, base, caps)|
  {
  }

  lemma SizeStep(u: nat, base: nat, caps: bool, k: nat)
    requires 2 <= base <= 16 && k > 1 && u >= base && u / base >= 0
    requires u / base < Pow(base, k - 1) <==> |Numeral(u / base, base, caps)| <= k - 1
    ensures u < Pow(base, k) <==> |Numeral(u, base, caps)| <= k
  {
    hide Numeral, Pow;
    NumeralLength(u, base, caps);
    PowStep(u, base, k);
  }

  lemma SizeEnd(u: nat, base: nat, caps: bool, k: nat)
    requires 2 <= base <= 16 && k > 0 && (u < base || k == 1)
    ensures u < Pow(base, k) <==> |Numeral(u, base, caps)| <= k
  {
    hide Numeral, Pow;
    NumeralLength(u, base, caps);
    PowLarge(base, k);
  }

  // No more digits than the value has
  lemma {:induction false} NumeralSize(u: nat, base: nat, caps: bool, k: nat)
    requires 2 <= base <= 16 && k > 0
    ensures u < Pow(base, k) <==> |Numeral(u, base, caps)| <= k
  {
    hide Numeral, Pow;
    if u < base || k == 1 {
      SizeEnd(u, base, caps, k);
    } else {
      DivisionFits(u, base);
      NumeralSize(u / base, base, caps, k - 1);
      SizeStep(u, base, caps, k);
    }
  }

  // The last k digits of u, or all
  lemma LastOf(u: nat, base: nat, caps: bool, k: nat)
    requires 2 <= base <= 16 && k > 0
    ensures var n := Numeral(u, base, caps);
      var d := if |n| > k then n[|n| - k..] else n;
      Pow(base, k) > 0 && Digits(d, base) && Value(d, base) == u % Pow(base, k)
  {
    hide Numeral, Pow, Value, DigitValue;
    var n := Numeral(u, base, caps);
    PowPositive(base, k);
    NumeralBack(u, base, caps);
    NumeralSize(u, base, caps, k);
    if |n| > k {
      LastDigits(n, base, k);
    } else {
      Small(u, Pow(base, k));
    }
  }

  lemma Small(u: nat, m: nat)
    requires u < m
    ensures u % m == u
  {
  }

  // The digits kept are right up to 19 of them.
  lemma KeptBack(u: nat, base: nat, caps: bool)
    requires 2 <= base <= 16
    ensures Pow(base, 19) > 0
    ensures var d := Kept(Numeral(u, base, caps)); d != [] && Digits(d, base) && Value(d, base) == u % Pow(base, 19)
  {
    hide Numeral, Pow, Value, Digits;
    LastOf(u, base, caps, 19);
  }

  // The text is as long as the field width or, if that is more, as its sign and digits and
  // zeros, unless the zero flag meets a precision that alone adds zeros and a wider field.
  lemma WidthIs(value: int, base: nat, min: int, max: int, fl: Flags)
    requires 2 <= base <= 16
    ensures var d, s := |Kept(Numeral(Magnitude(value, fl), base, fl.up))|, |Sign(value, fl)|;
      |IntText(value, base, min, max, fl)| == Max(min, s + Max(max, d)) <==> !(fl.zero && max > d && min > s + max)
  {
    hide Numeral, Kept, Magnitude, Sign;
    PaddedLength(Kept(Numeral(Magnitude(value, fl), base, fl.up)), Sign(value, fl), min, max, fl);
  }

  lemma PaddedLength(digits: string, sign: string, min: int, max: int, fl: Flags)
    ensures var zeros, spaces := Max(Max(max, 0) - |digits|, 0), Max(min - Max(max, |digits|) - |sign|, 0);
      |Padded(digits, sign, min, max, fl)| == |sign| + |digits| + if fl.zero then Max(zeros, spaces) else zeros + spaces
  {
  }

  // An integer read from text: spaces around it are skipped, and a sign is heeded.
  function TrimStart(s: string): string {
    if s != [] && s[0] == ' ' then TrimStart(s[1..]) else s
  }

  function TrimEnd(s: string): string {
    if s != [] && s[|s| - 1] == ' ' then TrimEnd(s[..|s| - 1]) else s
  }

  function Reading(s: string, base: nat): int {
    var t := TrimEnd(TrimStart(s));
    if t == [] then 0
    else if t[0] == '-' then -Value(t[1..], base)
    else if t[0] == '+' then Value(t[1..], base)
    else Value(t, base)
  }

  predicate Spaces(s: string) {
    forall i :: 0 <= i < |s| ==> s[i] == ' '
  }

  lemma {:induction false} StartTrimmed(a: string, s: string)
    requires Spaces(a)
    ensures TrimStart(a + s) == TrimStart(s)
  {
    if a == [] {
      assert a + s == s;
    } else {
      assert (a + s)[1..] == a[1..] + s;
      StartTrimmed(a[1..], s);
    }
  }

  lemma {:induction false} EndTrimmed(s: string, a: string)
    requires Spaces(a)
    ensures TrimEnd(s + a) == TrimEnd(s)
  {
    if a == [] {
      assert s + a == s;
    } else {
      assert (s + a)[..|s + a| - 1] == s + a[..|a| - 1];
      EndTrimmed(s, a[..|a| - 1]);
    }
  }

  lemma Trimmed(a: string, s: string, b: string)
    requires Spaces(a) && Spaces(b) && s != [] && s[0] != ' ' && s[|s| - 1] != ' '
    ensures TrimEnd(TrimStart(a + s + b)) == s
  {
    assert a + s + b == a + (s + b);
    StartTrimmed(a, s + b);
    EndTrimmed(s, b);
  }

  lemma {:induction false} ZerosBefore(n: int, d: string, base: nat)
    ensures Value(Repeat('0', n) + d, base) == Value(d, base)
    decreases |d|
  {
    var z := Repeat('0', n);
    if d == [] {
      assert z + d == z;
      AllZeros(z, base);
    } else {
      assert (z + d)[..|z + d| - 1] == z + d[..|d| - 1];
      ZerosBefore(n, d[..|d| - 1], base);
    }
  }

  lemma {:induction false} AllZeros(z: string, base: nat)
    requires forall i :: 0 <= i < |z| ==> z[i] == '0'
    ensures Value(z, base) == 0
  {
    if z != [] { AllZeros(z[..|z| - 1], base); }
  }

  lemma SignedReads(before: string, sign: string, number: string, behind: string, base: nat)
    requires Spaces(before) && Spaces(behind) && sign in ["", "-", "+", " "]
    requires number != [] && number[0] !in " +-" && number[|number| - 1] != ' '
    ensures Reading(before + (sign + number) + behind, base) == if sign == "-" then -Value(number, base)
      else Value(number, base)
  {
    hide TrimStart, TrimEnd, Value;
    if sign == " " {
      assert before + (sign + number) + behind == (before + sign) + number + behind;
      Trimmed(before + sign, number, behind);
    } else {
      Trimmed(before, sign + number, behind);
      assert sign != "" ==> (sign + number)[1..] == number && (sign + number)[0] == sign[0];
      assert sign == "" ==> sign + number == number;
    }
  }

  // Whatever the padding, the text reads as the sign and the digits.
  lemma PaddedReads(digits: string, sign: string, min: int, max: int, fl: Flags, base: nat)
    requires digits != [] && Digits(digits, base) && sign in ["", "-", "+", " "]
    ensures Reading(Padded(digits, sign, min, max, fl), base) == if sign == "-" then -Value(digits, base)
      else Value(digits, base)
  {
    hide Reading, Value, DigitValue, Repeat;
    var zeros, spaces := Max(Max(max, 0) - |digits|, 0), Max(min - Max(max, |digits|) - |sign|, 0);
    var n := if fl.zero then Max(zeros, spaces) else zeros;
    var number, pad := Repeat('0', n) + digits, Repeat(' ', if fl.zero then 0 else spaces);
    ZerosBefore(n, digits, base);
    assert sign + Repeat('0', n) + digits == sign + number;
    if fl.minus {
      assert [] + (sign + number) + pad == (sign + number) + pad;
      SignedReads([], sign, number, pad, base);
    } else {
      assert pad + (sign + number) + [] == pad + (sign + number);
      SignedReads(pad, sign, number, [], base);
    }
  }

  // The text of an integer reads as that integer, up to the digits that are dropped beyond 19.
  lemma IntBack(value: int, base: nat, min: int, max: int, fl: Flags)
    requires 2 <= base <= 16
    ensures Pow(base, 19) > 0
    ensures var u := Magnitude(value, fl);
      Reading(IntText(value, base, min, max, fl), base) ==
        (if Sign(value, fl) == "-" then -1 else 1) * (u % Pow(base, 19))
  {
    hide Numeral, Kept, Value, Digits, Pow, Reading, Padded, Magnitude;
    var u := Magnitude(value, fl);
    KeptBack(u, base, fl.up);
    PaddedReads(Kept(Numeral(u, base, fl.up)), Sign(value, fl), min, max, fl, base);
  }

  // Every long reads back in decimal with its sign.
  lemma LongBack(value: int, min: int, max: int, fl: Flags)
    requires -0x8000_0000_0000_0000 <= value < 0x8000_0000_0000_0000 && !fl.unsigned
    ensures Reading(IntText(value, 10, min, max, fl), 10) == value
  {
    hide Reading, IntText, Pow;
    IntBack(value, 10, min, max, fl);
    TenTo19(10);
  }

  lemma TenTo19(base: nat)
    requires base == 10
    ensures Pow(base, 19) == 10_000_000_000_000_000_000
  {
    assert Pow(base, 4) == 10_000;
    assert Pow(base, 9) == 1_000_000_000;
    assert Pow(base, 14) == 100_000_000_000_000;
  }

  // ---- What the text of an integer looks like ----

  // The text t of a value in its field: a sign as the flags ask for, digits behind it, zeros up
  // to the precision or, with that flag, up to the width, and spaces up to the width on the side
  // that the flags say.
  ghost predicate Field(t: string, value: int, base: nat, min: int, max: int, fl: Flags) {
    exists before: nat, zeros: nat, digits: string, behind: nat ::
      Laid(t, value, base, min, max, fl, before, zeros, digits, behind)
  }

  ghost predicate Laid(t: string, value: int, base: nat, min: int, max: int, fl: Flags, before: nat, zeros: nat,
      digits: string, behind: nat) {
    var sign := if fl.unsigned then "" else if value < 0 then "-"
      else if fl.plus then "+" else if fl.space then " " else "";
    && t == Repeat(' ', before) + sign + Repeat('0', zeros) + digits + Repeat(' ', behind)
    && digits != "" && Digits(digits, base) && (fl.up ==> NoSmall(digits)) && (!fl.up ==> NoCapital(digits))
    && (|digits| < 19 && |digits| > 1 ==> digits[0] != '0')
    && Pow(base, 19) > 0
    && Value(digits, base) ==
      (if !fl.unsigned && value < 0 then -value else value % 0x1_0000_0000_0000_0000) % Pow(base, 19)
    && (before > 0 ==> !fl.minus && !fl.zero) && (behind > 0 ==> fl.minus && !fl.zero)
    && (if fl.zero then zeros == Max(Max(max - |digits|, 0), min - Max(max, |digits|) - |sign|)
        else zeros == Max(max - |digits|, 0) && |t| == Max(min, |sign| + zeros + |digits|))
  }

  predicate NoSmall(s: string) {
    forall i :: 0 <= i < |s| ==> !('a' <= s[i] <= 'z')
  }

  predicate NoCapital(s: string) {
    forall i :: 0 <= i < |s| ==> !('A' <= s[i] <= 'Z')
  }

  lemma DigitCase(d: nat, caps: bool)
    requires d < 16
    ensures var c := DigitChar(d, caps); if caps then !('a' <= c <= 'z') else !('A' <= c <= 'Z')
    ensures DigitChar(d, caps) == '0' <==> d == 0
  {
  }

  lemma {:induction false} NumeralCase(u: nat, base: nat, caps: bool)
    requires 2 <= base <= 16
    ensures var n := Numeral(u, base, caps);
      && (if caps then NoSmall(n) else NoCapital(n)) && (u > 0 ==> n[0] != '0') && (u == 0 ==> |n| == 1)
  {
    hide DigitChar;
    DivisionFits(u, base);
    DigitCase(u % base, caps);
    if u >= base { NumeralCase(u / base, base, caps); }
  }

  lemma KeptCase(u: nat, base: nat, caps: bool)
    requires 2 <= base <= 16
    ensures var d := Kept(Numeral(u, base, caps));
      && (if caps then NoSmall(d) else NoCapital(d)) && (|d| < 19 && |d| > 1 ==> d[0] != '0')
  {
    hide Numeral;
    NumeralCase(u, base, caps);
  }

  lemma FieldOf(value: int, base: nat, min: int, max: int, fl: Flags)
    requires 2 <= base <= 16
    ensures Field(IntText(value, base, min, max, fl), value, base, min, max, fl)
  {
    hide Numeral, Kept, Digits, NoSmall, NoCapital, Pow, Value, Repeat;
    var u := Magnitude(value, fl);
    var digits, sign := Kept(Numeral(u, base, fl.up)), Sign(value, fl);
    KeptBack(u, base, fl.up);
    KeptCase(u, base, fl.up);
    var zeros, spaces := Max(Max(max, 0) - |digits|, 0), Max(min - Max(max, |digits|) - |sign|, 0);
    var n, pad := if fl.zero then Max(zeros, spaces) else zeros, if fl.zero then 0 else spaces;
    NoneRepeated(' ');
    var number := sign + Repeat('0', n) + digits;
    assert [] + sign == sign && number + [] == number;
    assert Repeat(' ', pad) + sign + Repeat('0', n) + digits == Repeat(' ', pad) + number;
    assert Laid(IntText(value, base, min, max, fl), value, base, min, max, fl,
      if fl.minus then 0 else pad, n, digits, if fl.minus then pad else 0);
  }

  lemma NoneRepeated(c: char)
    ensures Repeat(c, 0) == []
  {
  }
}
