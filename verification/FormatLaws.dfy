/** What the conversions of core/snprintf.c put into a text, said of the text of a format that is
    one directive, whatever its flags, width, precision and size. */
module FormatLaws {

  import opened Options
  import opened Words
  import Lists
  import opened Snprintf
  import opened FormatString

  function TextOf(call: Call): string {
    Text(call, 0, 0).text
  }

  // The format is this directive.
  predicate Alone(call: Call, p: Piece) {
    p.Directive? && Writable(p) && p.conversion != 'w' && call.format == Written(p)
  }

  // A star takes an argument ahead of the one that is converted.
  function Converts(call: Call, p: Piece): Arg
    requires p.Directive?
  {
    call.args((if p.width == Star then 1 else 0) + (if p.precision == Some(Star) then 1 else 0))
  }

  function WidthOf(call: Call, p: Piece): int
    requires p.Directive?
  {
    if p.width == Star then Int32(call.args(0).num) else Value(p.width.digits, 10)
  }

  // -1 stands for no precision.
  function LimitOf(call: Call, p: Piece): int
    requires p.Directive?
  {
    if p.precision == None || p.precision == Some(Literal([])) then -1
    else if p.precision == Some(Star) then Int32(call.args(if p.width == Star then 1 else 0).num)
    else Value(p.precision.value.digits, 10)
  }

  function FlagsOf(p: Piece): Flags
    requires p.Directive?
  {
    Flags('-' in p.flags, '+' in p.flags, ' ' in p.flags, '#' in p.flags, '0' in p.flags,
      p.conversion == 'X', p.conversion in "ouxX")
  }

  predicate IsLong(p: Piece)
    requires p.Directive?
  {
    p.size in ["l", "ll", "q"]
  }

  // ---- The parts of a directive ----

  lemma {:induction false} FlagsSet(fl: Flags, flags: string)
    requires forall i :: 0 <= i < |flags| ==> IsFlag(flags[i])
    ensures WithFlags(fl, flags) == Flags(fl.minus || '-' in flags, fl.plus || '+' in flags, fl.space || ' ' in flags,
      fl.num || '#' in flags, fl.zero || '0' in flags, fl.up, fl.unsigned)
    decreases |flags|
  {
    hide WithFlag;
    if flags != [] {
      OneFlag(fl, flags[0]);
      FlagsSet(WithFlag(fl, flags[0]), flags[1..]);
      FirstOrLater(flags);
    }
  }

  lemma OneFlag(fl: Flags, c: char)
    requires IsFlag(c)
    ensures WithFlag(fl, c) == Flags(fl.minus || c == '-', fl.plus || c == '+', fl.space || c == ' ',
      fl.num || c == '#', fl.zero || c == '0', fl.up, fl.unsigned)
  {
  }

  lemma FirstOrLater(s: string)
    requires s != []
    ensures forall c :: c in s <==> c == s[0] || c in s[1..]
  {
    assert s == [s[0]] + s[1..];
  }

  lemma {:induction false} DecimalMore(n: int, s: string, c: char)
    ensures Decimal(n, s + [c]) == 10 * Decimal(n, s) + (c as int - '0' as int)
    decreases |s|
  {
    if s == [] {
      assert s + [c] == [c] && [c][1..] == [];
    } else {
      assert (s + [c])[0] == s[0] && (s + [c])[1..] == s[1..] + [c];
      DecimalMore(10 * n + (s[0] as int - '0' as int), s[1..], c);
    }
  }

  lemma {:induction false} DecimalIs(s: string)
    requires forall i :: 0 <= i < |s| ==> IsDigit(s[i])
    ensures Decimal(0, s) == Value(s, 10)
    decreases |s|
  {
    if s != [] {
      var n := |s| - 1;
      assert s == s[..n] + [s[n]];
      DecimalIs(s[..n]);
      DecimalMore(0, s[..n], s[n]);
    }
  }

  // The text is what the conversion writes of its argument, with the flags, width and precision
  // of the directive.
  lemma Converting(call: Call, p: Piece)
    requires Alone(call, p)
    ensures var fl := FlagsOf(p).(up := false, unsigned := false);
      TextOf(call) == Converted(p.conversion, call, Converts(call, p), fl, WidthOf(call, p), LimitOf(call, p),
        SizeOf(p.size))
  {
    hide Text, Converted, Written;
    OnePiece(call, p);
    FlagsSet(NOFLAGS, p.flags);
    if p.width.Literal? { DecimalIs(p.width.digits); }
    if p.precision.Some? && p.precision.value.Literal? { DecimalIs(p.precision.value.digits); }
  }

  // ---- Integers ----

  // The value taken: an int or a long
  function Taking(call: Call, p: Piece): int
    requires p.Directive?
  {
    var n := Converts(call, p).num;
    if p.conversion == 'p' || IsLong(p) then Int64(n) else if p.conversion in "di" then Int32(n) else Uint32(n)
  }

  function BaseOf(c: char): nat {
    if c == 'o' then 8 else if c in "xXp" then 16 else 10
  }

  lemma IntegerConverted(call: Call, p: Piece, min: int, max: int)
    requires p.Directive? && Writable(p) && p.conversion in "diouxXp"
    ensures Converted(p.conversion, call, Converts(call, p), FlagsOf(p).(up := false, unsigned := false), min, max,
      SizeOf(p.size)) == IntText(Taking(call, p), BaseOf(p.conversion), min, max, FlagsOf(p))
  {
    hide IntText, Int32, Uint32, Int64, Converts, SizeOf, IsLong, Writable;
    LongSize(p);
  }

  lemma LongSize(p: Piece)
    requires p.Directive? && Writable(p)
    ensures IsLong(p) <==> SizeOf(p.size) in {Long, LongLong}
  {
  }

  // An integer is written in its field in the base of the conversion.
  lemma IntegerField(call: Call, p: Piece)
    requires Alone(call, p) && p.conversion in "diouxXp"
    ensures Field(TextOf(call), Taking(call, p), BaseOf(p.conversion), WidthOf(call, p), LimitOf(call, p), FlagsOf(p))
    ensures TextOf(call) ==
      IntText(Taking(call, p), BaseOf(p.conversion), WidthOf(call, p), LimitOf(call, p), FlagsOf(p))
  {
    hide Field, IntText, Converted, WidthOf, LimitOf;
    Converting(call, p);
    IntegerConverted(call, p, WidthOf(call, p), LimitOf(call, p));
    FieldOf(Taking(call, p), BaseOf(p.conversion), WidthOf(call, p), LimitOf(call, p), FlagsOf(p));
  }

  // '%d' and '%i' of an int or a long read back in decimal with the sign.
  lemma SignedBack(call: Call, p: Piece)
    requires Alone(call, p) && p.conversion in "di"
    requires var n := Converts(call, p).num;
      if IsLong(p) then -0x8000_0000_0000_0000 <= n < 0x8000_0000_0000_0000 else -0x8000_0000 <= n < 0x8000_0000
    ensures Reading(TextOf(call), 10) == Converts(call, p).num
  {
    hide Field, IntText, Reading;
    IntegerField(call, p);
    LongBack(Converts(call, p).num, WidthOf(call, p), LimitOf(call, p), FlagsOf(p));
  }

  // The others read back in their bases: an unsigned int always, and an unsigned long unless it
  // has more than 19 digits, of which the first are dropped.
  lemma UnsignedBack(call: Call, p: Piece)
    requires Alone(call, p) && p.conversion in "ouxX"
    requires 0 <= Converts(call, p).num < if IsLong(p) then 0x1_0000_0000_0000_0000 else 0x1_0000_0000
    ensures var n, t := Converts(call, p).num, TextOf(call);
      && (p.conversion == 'o' ==> Reading(t, 8) == n % 0x200_0000_0000_0000)
      && (p.conversion == 'u' ==> Reading(t, 10) == n % 10_000_000_000_000_000_000)
      && (p.conversion in "xX" ==> Reading(t, 16) == n)
  {
    hide Field, IntText, Reading, Pow, Taking, Magnitude, Sign, Converts,
      FlagsOf, WidthOf, LimitOf, IsLong, Text, Written;
    var b, n := BaseOf(p.conversion), Converts(call, p).num;
    IntegerField(call, p);
    IntBack(Taking(call, p), b, WidthOf(call, p), LimitOf(call, p), FlagsOf(p));
    Taken64(call, p);
    if b == 10 { TenTo19(b); } else { PowersOf(b); }
  }

  lemma Taken64(call: Call, p: Piece)
    requires p.Directive? && p.conversion in "ouxX"
    requires 0 <= Converts(call, p).num < if IsLong(p) then 0x1_0000_0000_0000_0000 else 0x1_0000_0000
    ensures Magnitude(Taking(call, p), FlagsOf(p)) == Converts(call, p).num && Sign(Taking(call, p), FlagsOf(p)) == ""
  {
    hide Uint32, Int64, Converts;
    NotNegative(Converts(call, p).num);
  }

  lemma NotNegative(n: int)
    requires 0 <= n < 0x1_0000_0000_0000_0000
    ensures Int64(n) % 0x1_0000_0000_0000_0000 == n && (n < 0x1_0000_0000 ==> Uint32(n) == n)
  {
    if n >= 0x8000_0000_0000_0000 {
      assert n + 0x8000_0000_0000_0000 == 0x1_0000_0000_0000_0000 + (n - 0x8000_0000_0000_0000);
    }
  }

  lemma PowersOf(b: nat)
    requires b == 8 || b == 16
    ensures b == 8 ==> Pow(b, 19) == 0x200_0000_0000_0000
    ensures b == 16 ==> Pow(b, 19) == 0x1000_0000_0000_0000_0000
  {
    assert Pow(b, 4) == if b == 8 then 0x1000 else 0x1_0000;
    assert Pow(b, 9) == if b == 8 then 0x800_0000 else 0x10_0000_0000;
    assert Pow(b, 14) == if b == 8 then 0x400_0000_0000 else 0x100_0000_0000_0000;
  }

  // '%p' of an address
  lemma PointerBack(call: Call, p: Piece)
    requires Alone(call, p) && p.conversion == 'p'
    requires -0x8000_0000_0000_0000 <= Converts(call, p).num < 0x8000_0000_0000_0000
    ensures Reading(TextOf(call), 16) == Converts(call, p).num
  {
    hide Field, IntText, Reading, Pow;
    IntegerField(call, p);
    IntBack(Taking(call, p), 16, WidthOf(call, p), LimitOf(call, p), FlagsOf(p));
    PowersOf(16);
  }

  // The bare directives, of an int
  lemma BareBack(call: Call, c: char)
    requires c in "diouxX" && call.format == ['%', c]
    requires var n := call.args(0).num; if c in "di" then -0x8000_0000 <= n < 0x8000_0000 else 0 <= n < 0x1_0000_0000
    ensures Reading(TextOf(call), if c == 'o' then 8 else if c in "xX" then 16 else 10) == call.args(0).num
  {
    hide Text, Reading, Written;
    var p := Directive([], Literal([]), None, [], c);
    BareWritten(p);
    if c in "di" { SignedBack(call, p); } else { UnsignedBack(call, p); }
  }

  lemma BareWritten(p: Piece)
    requires p.Directive? && p == Directive([], Literal([]), None, [], p.conversion)
    ensures Written(p) == ['%', p.conversion]
  {
  }

  // ---- Characters and strings ----

  // '%c' and '%%' heed no flags, width or precision.
  lemma CharText(call: Call, p: Piece)
    requires Alone(call, p) && p.conversion in "c%"
    ensures p.conversion == '%' ==> TextOf(call) == "%"
    ensures p.conversion == 'c' ==> |TextOf(call)| == 1 && TextOf(call)[0] as int == Converts(call, p).num % 256
  {
    Converting(call, p);
  }

  // s in a field of at least min characters, of which no more than max are written
  ghost predicate StringField(t: string, s: string, min: int, max: int, minus: bool) {
    exists f: string ::
      && |f| == Max(min, |s|)
      && (if minus then f[..|s|] == s && Spaces(f[|s|..]) else f[|f| - |s|..] == s && Spaces(f[..|f| - |s|]))
      && t == if max < 0 || max >= |f| then f else f[..max]
  }

  lemma StringText(call: Call, p: Piece)
    requires Alone(call, p) && p.conversion == 's'
    ensures var s := Converts(call, p).text;
      StringField(TextOf(call), if s == None then "<NULL>" else s.value,
        WidthOf(call, p), LimitOf(call, p), '-' in p.flags)
  {
    hide InField, Limited, Converts, WidthOf, LimitOf, StringField, Text;
    Converting(call, p);
    FieldText(Converts(call, p).text, WidthOf(call, p), LimitOf(call, p), FlagsOf(p).(up := false, unsigned := false));
  }

  lemma FieldText(value: Option<string>, min: int, max: int, fl: Flags)
    ensures var f := InField(value, min, fl);
      StringField(if max < 0 then f else Limited(f, max), if value == None then "<NULL>" else value.value,
        min, max, fl.minus)
  {
    hide Repeat;
    var f, s := InField(value, min, fl), if value == None then "<NULL>" else value.value;
    assert |f| == Max(min, |s|);
    assert if fl.minus then f[..|s|] == s && Spaces(f[|s|..]) else f[|f| - |s|..] == s && Spaces(f[..|f| - |s|]);
  }

  // What is known to take an argument and writes nothing, and what is not known at all
  lemma NothingText(call: Call, p: Piece)
    requires Alone(call, p) && p.conversion !in "diouxXpfcs%"
    ensures TextOf(call) == ""
  {
    Converting(call, p);
  }

  // The next directive takes the argument behind those that this one takes.
  lemma SecondText(call: Call, p: Piece, q: Piece, first: Call, second: Call)
    requires p.Directive? && q.Directive? && Writable(p) && Writable(q) && p.conversion != 'w' && q.conversion != 'w'
    requires call.format == Written(p) + Written(q)
    requires first == call.(format := Written(p)) && second == call.(format := Written(q), args := second.args)
    requires var a: nat := (if p.width == Star then 1 else 0) + (if p.precision == Some(Star) then 1 else 0)
      + (if p.conversion in "diouxXpcsfeEgGn" then 1 else 0);
      forall i: nat :: second.args(i) == call.args(a + i)
    ensures TextOf(call) == TextOf(first) + TextOf(second)
  {
    hide Text, Written, Rendered, Writable;
    TwoPieces(call, p, q);
    OnePiece(first, p);
    OnePiece(second, q);
    SameConverted(call, first, p, 0, 0);
    assert second.args(0) == call.args(TakenBy(p)) && second.args(1) == call.args(TakenBy(p) + 1);
    assert second.args(2) == call.args(TakenBy(p) + 2);
    SameConverted(call, second, q, TakenBy(p), 0);
  }

  lemma OnePiece(call: Call, p: Piece)
    requires Writable(p) && Skipped(p) == 0 && call.format == Written(p)
    ensures Text(call, 0, 0) == Output(Rendered(p, call, 0), false)
  {
    hide Text, Written, Rendered, Writable;
    assert WrittenAll([p]) == Written(p) + WrittenAll([]) == Written(p);
    WholeText(call, [p]);
    assert RenderedAll([p], call, 0) == Rendered(p, call, 0) + [] == Rendered(p, call, 0);
  }

  lemma TwoPieces(call: Call, p: Piece, q: Piece)
    requires Writable(p) && Writable(q) && Skipped(p) == Skipped(q) == 0 && call.format == Written(p) + Written(q)
    ensures TextOf(call) == Rendered(p, call, 0) + Rendered(q, call, TakenBy(p))
  {
    hide Text, Written, Rendered, Writable;
    var ps := [p, q];
    assert ps[1..] == [q];
    assert WrittenAll([q]) == Written(q) + [] == Written(q);
    WholeText(call, ps);
    assert RenderedAll([q], call, TakenBy(p)) == Rendered(q, call, TakenBy(p)) + [] == Rendered(q, call, TakenBy(p));
  }

  lemma SameConverted(call: Call, other: Call, p: Piece, a: nat, b: nat)
    requires call.floats == other.floats && call.args(a) == other.args(b) && call.args(a + 1) == other.args(b + 1)
    requires call.args(a + 2) == other.args(b + 2)
    ensures Rendered(p, call, a) == Rendered(p, other, b)
  {
    hide IntText, InField, Limited, SignedArg, UnsignedArg, Decimal, WithFlags, SizeOf;
  }
}
