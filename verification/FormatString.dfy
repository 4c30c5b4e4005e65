/** The state machine over format strings, dopr, and AG_Snprintf (core/snprintf.c). */
module FormatString {

  import opened Options
  import opened Words
  import Lists
  import opened Snprintf

  // What a call is given: the format, the arguments in order, and the formatter of floating
  // point numbers
  datatype Call = Call(format: string, args: Args, floats: Floats)

  // ---- What a format stands for ----

  predicate IsFlag(c: char) {
    c in "-+ #0"
  }

  function WithFlag(fl: Flags, c: char): Flags {
    match c
    case '-' => fl.(minus := true)
    case '+' => fl.(plus := true)
    case ' ' => fl.(space := true)
    case '#' => fl.(num := true)
    case _ => fl.(zero := true)
  }

  predicate IsDigit(c: char) {
    '0' <= c <= '9'
  }

  function Limited(s: string, n: int): string {
    if n <= 0 then [] else if |s| <= n then s else s[..n]
  }

  // A string in its field
  function InField(value: Option<string>, min: int, fl: Flags): string {
    var s := if value.None? then "<NULL>" else value.value;
    var pad := Repeat(' ', min - |s|);
    if fl.minus then s + pad else pad + s
  }

  // What the conversion c writes, of an argument
  function Converted(c: char, call: Call, arg: Arg, fl: Flags, min: int, max: int, size: Size): string {
    match c
    case 'd' => IntText(SignedArg(arg.num, size), 10, min, max, fl)
    case 'i' => IntText(SignedArg(arg.num, size), 10, min, max, fl)
    case 'o' => IntText(UnsignedArg(arg.num, size), 8, min, max, fl.(unsigned := true))
    case 'u' => IntText(UnsignedArg(arg.num, size), 10, min, max, fl.(unsigned := true))
    case 'x' => IntText(UnsignedArg(arg.num, size), 16, min, max, fl.(unsigned := true))
    case 'X' => IntText(UnsignedArg(arg.num, size), 16, min, max, fl.(unsigned := true, up := true))
    case 'f' => call.floats(arg, size, min, max, fl)
    case 'c' => [(arg.num % 256) as char]
    case 's' => if max < 0 then InField(arg.text, min, fl) else Limited(InField(arg.text, min, fl), max)
    case 'p' => IntText(Int64(arg.num), 16, min, max, fl)
    case '%' => "%"
    case _ => []
  }

  // How many arguments the conversion c takes
  function Taken(c: char): nat {
    if c in "diouxXfeEgGcspn" then 1 else 0
  }

  // The text of a format, and whether reading goes on behind its end
  datatype Output = Output(text: string, past: bool)

  const NOTHING := Output([], false)

  function Before(s: string, o: Output): Output {
    Output(s + o.text, o.past)
  }

  predicate EndsInW(format: string) {
    format != [] && format[|format| - 1] == 'w'
  }

  // The text from position k on, where a is the number of arguments taken before
  function Text(call: Call, k: nat, a: nat): (o: Output)
    ensures o.past && k <= |call.format| ==> EndsInW(call.format)
    decreases Max(|call.format| - k, 0), 6
  {
    if k >= |call.format| then Output([], k > |call.format|)
    else if call.format[k] == '%' then FlagsAt(call, k + 1, a, NOFLAGS)
    else Before([call.format[k]], Text(call, k + 1, a))
  }

  // ... with a directive's flags at k
  function FlagsAt(call: Call, k: nat, a: nat, fl: Flags): (o: Output)
    ensures o.past && k <= |call.format| ==> EndsInW(call.format)
    decreases Max(|call.format| - k, 0), 5
  {
    if k >= |call.format| then NOTHING
    else if IsFlag(call.format[k]) then FlagsAt(call, k + 1, a, WithFlag(fl, call.format[k]))
    else WidthAt(call, k, a, fl, 0)
  }

  // ... with its width at k
  function WidthAt(call: Call, k: nat, a: nat, fl: Flags, min: int): (o: Output)
    ensures o.past && k <= |call.format| ==> EndsInW(call.format)
    decreases Max(|call.format| - k, 0), 4
  {
    if k >= |call.format| then NOTHING
    else if IsDigit(call.format[k]) then WidthAt(call, k + 1, a, fl, 10 * min + (call.format[k] as int - '0' as int))
    else if call.format[k] == '*' then DotAt(call, k + 1, a + 1, fl, Int32(call.args(a).num))
    else DotAt(call, k, a, fl, min)
  }

  // ... with the dot before its precision at k, if there is one
  function DotAt(call: Call, k: nat, a: nat, fl: Flags, min: int): (o: Output)
    ensures o.past && k <= |call.format| ==> EndsInW(call.format)
    decreases Max(|call.format| - k, 0), 3
  {
    if k >= |call.format| then NOTHING
    else if call.format[k] == '.' then PrecisionAt(call, k + 1, a, fl, min, -1)
    else SizeAt(call, k, a, fl, min, -1)
  }

  // ... with its precision at k
  function PrecisionAt(call: Call, k: nat, a: nat, fl: Flags, min: int, max: int): (o: Output)
    ensures o.past && k <= |call.format| ==> EndsInW(call.format)
    decreases Max(|call.format| - k, 0), 2
  {
    if k >= |call.format| then NOTHING
    else if IsDigit(call.format[k]) then
      PrecisionAt(call, k + 1, a, fl, min, 10 * Max(max, 0) + (call.format[k] as int - '0' as int))
    else if call.format[k] == '*' then SizeAt(call, k + 1, a + 1, fl, min, Int32(call.args(a).num))
    else SizeAt(call, k, a, fl, min, max)
  }

  // ... with the size of its argument at k, if it is given
  function SizeAt(call: Call, k: nat, a: nat, fl: Flags, min: int, max: int): (o: Output)
    ensures o.past && k <= |call.format| ==> EndsInW(call.format)
    decreases Max(|call.format| - k, 0), 1
  {
    if k >= |call.format| then NOTHING
    else match call.format[k]
      case 'h' => ConversionAt(call, k + 1, a, fl, min, max, Short)
      case 'l' =>
        if k + 1 < |call.format| && call.format[k + 1] == 'l' then ConversionAt(call, k + 2, a, fl, min, max, LongLong)
        else ConversionAt(call, k + 1, a, fl, min, max, Long)
      case 'q' => ConversionAt(call, k + 1, a, fl, min, max, LongLong)
      case 'L' => ConversionAt(call, k + 1, a, fl, min, max, LongDouble)
      case _ => ConversionAt(call, k, a, fl, min, max, Standard)
  }

  // ... with its conversion at k.  What follows a 'w' is skipped.
  function ConversionAt(call: Call, k: nat, a: nat, fl: Flags, min: int, max: int, size: Size): (o: Output)
    ensures o.past && k <= |call.format| ==> EndsInW(call.format)
    decreases Max(|call.format| - k, 0), 0
  {
    if k >= |call.format| then NOTHING
    else
      var c := call.format[k];
      Before(Converted(c, call, call.args(a), fl, min, max, size),
        Text(call, if c == 'w' then k + 2 else k + 1, a + Taken(c)))
  }

  // ---- The state machine ----

  datatype State = InText | InFlags | InMin | InDot | InMax | InMod | InConv | Done

  // The position in the format, the arguments taken, and what is known of the directive
  datatype Progress = Progress(k: nat, a: nat, fl: Flags, min: int, max: int, size: Size)

  // What is still to come
  function Rest(call: Call, state: State, p: Progress): Output {
    match state
    case InText => Text(call, p.k, p.a)
    case InFlags => FlagsAt(call, p.k, p.a, p.fl)
    case InMin => WidthAt(call, p.k, p.a, p.fl, p.min)
    case InDot => DotAt(call, p.k, p.a, p.fl, p.min)
    case InMax => PrecisionAt(call, p.k, p.a, p.fl, p.min, p.max)
    case InMod => SizeAt(call, p.k, p.a, p.fl, p.min, p.max)
    case InConv => ConversionAt(call, p.k, p.a, p.fl, p.min, p.max, p.size)
    case Done => NOTHING
  }

  // What is known of the directive before its parts are read
  predicate Unread(state: State, p: Progress) {
    && (state in {InText, InFlags} ==> p.fl == NOFLAGS || state == InFlags)
    && (state in {InText, InFlags, InMin} ==> p.max == -1)
    && (state in {InText, InFlags} ==> p.min == 0)
    && (state == InDot ==> p.max == -1)
    && (state !in {InConv, Done} ==> p.size == Standard)
  }

  function Rank(state: State): nat {
    match state
    case InText => 0
    case InFlags => 6
    case InMin => 5
    case InDot => 4
    case InMax => 3
    case InMod => 2
    case InConv => 1
    case Done => 0
  }

  // A turn of the loop that leads from (state, p) to (next, q) uses up characters or goes to a
  // later part of the directive.
  predicate Onward(call: Call, state: State, p: Progress, next: State, q: Progress) {
    && p.k <= q.k && (q.k == p.k ==> Rank(next) < Rank(state)) && next != Done
    && q.k <= |call.format| + 1
  }

  // The states that write nothing
  method PartTurn(call: Call, state: State, p: Progress) returns (next: State, q: Progress)
    requires state !in {InText, InConv, Done} && Unread(state, p) && p.k < |call.format|
    ensures Rest(call, next, q) == Rest(call, state, p) && Unread(next, q) && Onward(call, state, p, next, q)
    ensures q.k <= |call.format|
  {
    var ch := call.format[p.k];
    next, q := state, p;
    if state == InFlags {
      if IsFlag(ch) {
        q := p.(fl := WithFlag(p.fl, ch), k := p.k + 1);
      } else {
        next := InMin;
      }
    } else if state == InMin {
      if IsDigit(ch) {
        q := p.(min := 10 * p.min + (ch as int - '0' as int), k := p.k + 1);
      } else if ch == '*' {
        next, q := InDot, p.(min := Int32(call.args(p.a).num), a := p.a + 1, k := p.k + 1);
      } else {
        next := InDot;
      }
    } else if state == InDot {
      if ch == '.' {
        next, q := InMax, p.(k := p.k + 1);
      } else {
        next := InMod;
      }
    } else if state == InMax {
      if IsDigit(ch) {
        var max := if p.max < 0 then 0 else p.max;
        q := p.(max := 10 * max + (ch as int - '0' as int), k := p.k + 1);
      } else if ch == '*' {
        next, q := InMod, p.(max := Int32(call.args(p.a).num), a := p.a + 1, k := p.k + 1);
      } else {
        next := InMod;
      }
    } else {
      next := InConv;
      match ch {
        case 'h' =>
          q := p.(size := Short, k := p.k + 1);
        case 'l' =>
          q := p.(size := Long, k := p.k + 1);
          if q.k < |call.format| && call.format[q.k] == 'l' {
            q := q.(size := LongLong, k := q.k + 1);
          }
        case 'q' =>
          q := p.(size := LongLong, k := p.k + 1);
        case 'L' =>
          q := p.(size := LongDouble, k := p.k + 1);
        case _ =>
      }
    }
  }

  // The text t in place of s: all of it, or as much as fills a buffer of that size
  predicate Enough(t: string, s: string, maxlen: nat) {
    t == s || (|t| == maxlen && t <= s)
  }

  // fmtstr
  method FmtStr(out: Out, value: Option<string>, fl: Flags, min: int, max: int)
    requires out.Valid() && max >= 0
    modifies out`currlen, out`text, out.buffer
    ensures out.Valid() && out.text == old(out.text) + Limited(InField(value, min, fl), max)
    ensures out.buffer[out.maxlen..] == old(out.buffer[out.maxlen..])
  {
    hide Repeat, Limited, InField;
    var s := if value.None? then "<NULL>" else value.value;
    var padlen := min - |s|;
    if padlen < 0 {
      padlen := 0;
    }
    if fl.minus {
      padlen := -padlen;
    }
    FieldTaken(value, min, fl, s, padlen, max, out.text);
    var cnt := PutPad(out, padlen, 0, max);
    cnt := PutString(out, s, cnt, max);
    cnt := PutPad(out, -padlen, cnt, max);
  }

  method PutString(out: Out, s: string, count: int, max: int) returns (cnt: int)
    requires out.Valid() && count <= max
    modifies out`currlen, out`text, out.buffer
    ensures cnt == count + Min(|s|, max - count)
    ensures out.Valid() && out.text == old(out.text) + Limited(s, max - count)
    ensures out.buffer[out.maxlen..] == old(out.buffer[out.maxlen..])
  {
    var i := 0;
    cnt := count;
    while i < |s| && cnt < max
      invariant i <= |s| && cnt <= max && cnt == count + i
      invariant out.Valid() && out.text == old(out.text) + s[..i]
      invariant out.buffer[out.maxlen..] == old(out.buffer[out.maxlen..])
    {
      out.Put(s[i]);
      assert old(out.text) + s[..i + 1] == old(out.text) + s[..i] + [s[i]];
      i := i + 1;
      cnt := cnt + 1;
    }
    assert s[..i] == Limited(s, max - count);
  }

  // The three parts of a field, each within what the others leave of the limit, behind t
  lemma FieldTaken(value: Option<string>, min: int, fl: Flags, s: string, padlen: int, max: int, t: string)
    requires max >= 0 && s == (if value.None? then "<NULL>" else value.value)
    requires padlen == if fl.minus then -Max(min - |s|, 0) else Max(min - |s|, 0)
    ensures var c := Max(Min(padlen, max), 0); var d := c + Min(|s|, max - c);
      t + Repeat(' ', Min(padlen, max)) + Limited(s, max - c) + Repeat(' ', Min(-padlen, max - d)) ==
        t + Limited(InField(value, min, fl), max)
  {
    hide Repeat, Limited, InField;
    var left, right := Repeat(' ', padlen), Repeat(' ', -padlen);
    FieldIs(value, min, fl, s, padlen);
    TakeJoin(left + s, right, max);
    TakeJoin(left, s, max);
    TakeRepeat(' ', padlen, max);
    TakeRepeat(' ', -padlen, max - |left + s|);
    var c := Max(Min(padlen, max), 0);
    var d := c + Min(|s|, max - c);
    SameTake(s, max - |left|, max - c);
    assert Repeat(' ', Min(-padlen, max - |left + s|)) == Repeat(' ', Min(-padlen, max - d)) by {
      if max <= |left + s| {
        RepeatNone(' ', Min(-padlen, max - |left + s|));
        RepeatNone(' ', Min(-padlen, max - d));
      }
    }
  }

  lemma SameTake(s: string, m: int, n: int)
    requires m == n || (m <= 0 && n <= 0)
    ensures Limited(s, m) == Limited(s, n)
  {
  }

  lemma FieldIs(value: Option<string>, min: int, fl: Flags, s: string, padlen: int)
    requires s == (if value.None? then "<NULL>" else value.value)
    requires padlen == if fl.minus then -Max(min - |s|, 0) else Max(min - |s|, 0)
    ensures InField(value, min, fl) == Repeat(' ', padlen) + s + Repeat(' ', -padlen)
    ensures |Repeat(' ', padlen)| == Max(padlen, 0)
  {
  }

  lemma TakeJoin(a: string, b: string, n: int)
    ensures Limited(a + b, n) == Limited(a, n) + Limited(b, n - |a|)
  {
  }

  lemma TakeRepeat(c: char, n: int, m: int)
    ensures Limited(Repeat(c, n), m) == Repeat(c, Min(n, m))
  {
  }

  // n spaces, but no more than the limit allows
  method PutPad(out: Out, n: int, count: int, max: int) returns (cnt: int)
    requires out.Valid() && count <= max
    modifies out`currlen, out`text, out.buffer
    ensures cnt == count + Max(Min(n, max - count), 0)
    ensures out.Valid() && out.text == old(out.text) + Repeat(' ', Min(n, max - count))
    ensures out.buffer[out.maxlen..] == old(out.buffer[out.maxlen..])
  {
    hide Repeat;
    var padlen := n;
    cnt := count;
    RepeatNone(' ', 0);
    while padlen > 0 && cnt < max
      invariant count <= cnt <= max && cnt - count == Max(n, 0) - Max(padlen, 0)
      invariant padlen == n - (cnt - count) && padlen >= Min(n, 0)
      invariant out.Valid() && out.text == old(out.text) + Repeat(' ', cnt - count)
      invariant out.buffer[out.maxlen..] == old(out.buffer[out.maxlen..])
    {
      out.Put(' ');
      RepeatMore(' ', cnt - count);
      padlen := padlen - 1;
      cnt := cnt + 1;
    }
    if n <= 0 || max == count { RepeatNone(' ', Min(n, max - count)); }
  }

  lemma RepeatNone(c: char, n: int)
    requires n <= 0
    ensures Repeat(c, n) == []
  {
  }

  lemma RepeatMore(c: char, n: int)
    requires n >= 0
    ensures Repeat(c, n + 1) == Repeat(c, n) + [c]
  {
    assert |Repeat(c, n + 1)| == |Repeat(c, n) + [c]|;
  }

  // The text so far and the text to come make up all of the text, or the buffer is full of it.
  predicate Ahead(text: string, rest: Output, full: Output, maxlen: nat) {
    || Before(text, rest) == full
    || (|text| >= maxlen && |full.text| >= maxlen && text[..maxlen] == full.text[..maxlen])
  }

  lemma AheadStep(text: string, t: string, s: string, rest: Output, full: Output, maxlen: nat)
    requires Ahead(text, Before(s, rest), full, maxlen) && Enough(t, s, maxlen)
    ensures Ahead(text + t, rest, full, maxlen)
  {
    if Before(text, Before(s, rest)) == full {
      assert full.text == (text + s) + rest.text;
      if t != s {
        assert full.text[..|text + t|] == text + t;
      }
    }
  }

  // The conversion at k; t is what it writes.
  method ConversionTurn(out: Out, call: Call, p: Progress) returns (q: Progress, ghost t: string)
    requires out.Valid() && p.k < |call.format|
    modifies out`currlen, out`text, out.buffer
    ensures out.Valid() && out.text == old(out.text) + t && out.buffer[out.maxlen..] == old(out.buffer[out.maxlen..])
    ensures Enough(t, Converted(call.format[p.k], call, call.args(p.a), p.fl, p.min, p.max, p.size), out.maxlen)
    ensures q == Progress(if call.format[p.k] == 'w' then p.k + 2 else p.k + 1, p.a + Taken(call.format[p.k]),
      NOFLAGS, 0, -1, Standard)
  {
    hide Converted;
    var ch := call.format[p.k];
    var arg, k, a := call.args(p.a), p.k, p.a;
    t := Converted(ch, call, arg, p.fl, p.min, p.max, p.size);
    if ch in "diouxXp" {
      a := a + 1;
      IntegerTurn(out, call, ch, arg, p);
    } else if ch == 's' {
      a := a + 1;
      t := StringTurn(out, call, arg, p);
    } else {
      k, a := OtherTurn(out, call, ch, arg, p);
    }
    q := Progress(k + 1, a, NOFLAGS, 0, -1, Standard);
  }

  method IntegerTurn(out: Out, call: Call, ch: char, arg: Arg, p: Progress)
    requires out.Valid() && ch in "diouxXp"
    modifies out`currlen, out`text, out.buffer
    ensures out.Valid() && out.text == old(out.text) + Converted(ch, call, arg, p.fl, p.min, p.max, p.size)
    ensures out.buffer[out.maxlen..] == old(out.buffer[out.maxlen..])
  {
    hide IntText, SignedArg, UnsignedArg, Int64;
    match ch {
      case 'o' =>
        FmtInt(out, UnsignedArg(arg.num, p.size), 8, p.min, p.max, p.fl.(unsigned := true));
      case 'u' =>
        FmtInt(out, UnsignedArg(arg.num, p.size), 10, p.min, p.max, p.fl.(unsigned := true));
      case 'X' =>
        FmtInt(out, UnsignedArg(arg.num, p.size), 16, p.min, p.max, p.fl.(unsigned := true, up := true));
      case 'x' =>
        FmtInt(out, UnsignedArg(arg.num, p.size), 16, p.min, p.max, p.fl.(unsigned := true));
      case 'p' =>
        FmtInt(out, Int64(arg.num), 16, p.min, p.max, p.fl);
      case _ =>
        FmtInt(out, SignedArg(arg.num, p.size), 10, p.min, p.max, p.fl);
    }
  }

  // For a negative precision the string is cut at the size of the buffer.
  method StringTurn(out: Out, call: Call, arg: Arg, p: Progress) returns (ghost t: string)
    requires out.Valid()
    modifies out`currlen, out`text, out.buffer
    ensures out.Valid() && out.text == old(out.text) + t && out.buffer[out.maxlen..] == old(out.buffer[out.maxlen..])
    ensures Enough(t, Converted('s', call, arg, p.fl, p.min, p.max, p.size), out.maxlen)
  {
    hide InField, Limited;
    var max := if p.max < 0 then out.maxlen else p.max;
    FmtStr(out, arg.text, p.fl, p.min, max);
    t := Limited(InField(arg.text, p.min, p.fl), max);
    TakeEnough(InField(arg.text, p.min, p.fl), out.maxlen);
  }

  // The conversions that are neither of integers nor of strings
  method OtherTurn(out: Out, call: Call, ch: char, arg: Arg, p: Progress) returns (k: nat, a: nat)
    requires out.Valid() && ch !in "diouxXps"
    modifies out`currlen, out`text, out.buffer
    ensures out.Valid() && out.text == old(out.text) + Converted(ch, call, arg, p.fl, p.min, p.max, p.size)
    ensures out.buffer[out.maxlen..] == old(out.buffer[out.maxlen..])
    ensures k == (if ch == 'w' then p.k + 1 else p.k) && a == p.a + Taken(ch)
  {
    hide Limited;
    k, a := p.k, p.a;
    assert out.text + [] == out.text;
    match ch {
      case 'f' =>
        a := a + 1;
        var s := call.floats(arg, p.size, p.min, p.max, p.fl);
        TakeAll(s);
        var _ := PutString(out, s, 0, |s|);
      case 'c' =>
        a := a + 1;
        out.Put((arg.num % 256) as char);
      case '%' =>
        out.Put(ch);
      case 'w' =>
        k := k + 1;
      case _ =>
        if ch in "eEgGn" {
          a := a + 1;
        }
    }
  }

  lemma TakeAll(s: string)
    ensures Limited(s, |s|) == s
  {
  }

  lemma TakeEnough(s: string, n: nat)
    ensures Enough(Limited(s, n), s, n)
  {
  }

  // A turn of the loop before the end of the format, while the buffer is not full
  method Turn(out: Out, call: Call, state: State, p: Progress, ghost full: Output) returns (next: State, q: Progress)
    requires out.Valid() && state != Done && Unread(state, p) && p.k < |call.format|
    requires Ahead(out.text, Rest(call, state, p), full, out.maxlen)
    modifies out`currlen, out`text, out.buffer
    ensures out.Valid() && out.buffer[out.maxlen..] == old(out.buffer[out.maxlen..])
    ensures Unread(next, q) && Onward(call, state, p, next, q) && Ahead(out.text, Rest(call, next, q), full, out.maxlen)
    ensures q.k > |call.format| ==> out.text == old(out.text) && Rest(call, next, q) == Output([], true)
  {
    hide Ahead, Enough, Converted;
    var ch := call.format[p.k];
    ghost var was := out.text;
    if state == InText {
      next, q := state, p.(k := p.k + 1);
      if ch == '%' {
        next := InFlags;
      } else {
        out.Put(ch);
        SameEnough([ch], out.maxlen);
        AheadStep(was, [ch], [ch], Text(call, p.k + 1, p.a), full, out.maxlen);
      }
    } else if state == InConv {
      ghost var t;
      next := InText;
      q, t := ConversionTurn(out, call, p);
      if ch == 'w' { NothingWritten(call, p, t, out.maxlen); }
      AheadStep(was, t, Converted(ch, call, call.args(p.a), p.fl, p.min, p.max, p.size), Text(call, q.k, q.a), full,
        out.maxlen);
    } else {
      next, q := PartTurn(call, state, p);
    }
  }

  lemma NothingWritten(call: Call, p: Progress, t: string, maxlen: nat)
    requires Enough(t, Converted('w', call, call.args(p.a), p.fl, p.min, p.max, p.size), maxlen)
    ensures t == [] && forall s: string :: s + t == s
  {
  }

  lemma SameEnough(s: string, maxlen: nat)
    ensures Enough(s, s, maxlen)
  {
  }

  // Nothing is to come at the end of the format, and nothing more fits when the buffer is full.
  lemma Finished(call: Call, state: State, p: Progress, text: string, full: Output, maxlen: nat)
    requires Ahead(text, Rest(call, state, p), full, maxlen) && (p.k == |call.format| || |text| >= maxlen)
    ensures Ahead(text, Rest(call, Done, p), full, maxlen)
  {
    if |text| < maxlen {
      assert Rest(call, state, p) == NOTHING;
    } else if Before(text, Rest(call, state, p)) == full {
      assert full.text[..maxlen] == text[..maxlen];
    }
  }

  lemma RestText(call: Call, p: Progress)
    requires p.k == 0 && p.a == 0
    ensures Rest(call, InText, p) == Text(call, 0, 0) == Before([], Text(call, 0, 0))
  {
  }

  lemma RestDone(call: Call, p: Progress)
    ensures Rest(call, Done, p) == NOTHING
  {
  }

  // The scan reads behind the terminator if and only if it comes to a conversion 'w' that ends
  // the format while the buffer has room.
  predicate Overrun(call: Call, maxlen: nat) {
    Text(call, 0, 0).past && |Text(call, 0, 0).text| < maxlen
  }

  // dopr.  If the code reads on behind the terminator, nothing else is said.
  method Dopr(buffer: array<char>, maxlen: nat, call: Call) returns (overrun: bool)
    requires maxlen <= buffer.Length && buffer.Length > 0
    modifies buffer
    ensures overrun == Overrun(call, maxlen)
    ensures !overrun ==>
      var full := Text(call, 0, 0).text;
      var n := Max(Min(|full|, maxlen - 1), 0);
      buffer[..n] == full[..n] && buffer[n] == '\0' && forall i :: Max(maxlen, 1) <= i < buffer.Length ==>
        buffer[i] == old(buffer[i])
  {
    hide Text, Rest, Converted;
    var out := new Out(buffer, maxlen);
    var state, p := InText, Progress(0, 0, NOFLAGS, 0, -1, Standard);
    ghost var full := Text(call, 0, 0);
    RestText(call, p);
    while state != Done
      invariant out.Valid() && out.buffer == buffer && out.maxlen == maxlen && fresh(out)
      invariant Unread(state, p) && p.k <= |call.format| && Ahead(out.text, Rest(call, state, p), full, maxlen)
      invariant buffer[maxlen..] == old(buffer[maxlen..])
      decreases |call.format| - p.k, if state == Done then 0 else 1 + Rank(state)
    {
      if p.k == |call.format| || out.currlen >= maxlen {
        Finished(call, state, p, out.text, full, maxlen);
        state := Done;
      } else {
        state, p := Turn(out, call, state, p, full);
        if p.k > |call.format| {
          assert out.text + [] == out.text;
          return true;
        }
      }
    }
    RestDone(call, p);
    assert Before(out.text, NOTHING).text == out.text;
    if maxlen == 0 || out.currlen < maxlen - 1 {
      buffer[out.currlen] := '\0';
    } else {
      buffer[maxlen - 1] := '\0';
    }
    overrun := false;
  }

  // The string that ends at the first NUL
  function ToNul(s: string): (r: string)
    ensures r <= s && '\0' !in r && (|r| < |s| ==> s[|r|] == '\0')
  {
    if s == [] || s[0] == '\0' then [] else [s[0]] + ToNul(s[1..])
  }

  // AG_Snprintf: as much of the text as fits with its NUL.  The length returned is that of the
  // string in the buffer, and not, as with the standard function, that of the whole text.
  method AgSnprintf(str: array<char>, count: nat, call: Call) returns (len: nat, overrun: bool)
    requires count <= str.Length && str.Length > 0
    modifies str
    ensures overrun == Overrun(call, count)
    ensures !overrun ==>
      var s := Limited(Text(call, 0, 0).text, count - 1);
      str[..|s|] == s && str[|s|] == '\0' && len == |ToNul(s)| && forall i :: Max(count, 1) <= i < str.Length ==>
        str[i] == old(str[i])
  {
    hide Text;
    str[0] := '\0';
    len := 0;
    overrun := Dopr(str, count, call);
    if overrun {
      return;
    }
    ghost var s := Limited(Text(call, 0, 0).text, count - 1);
    while str[len] != '\0'
      invariant len <= |ToNul(s)|
      decreases |s| - len
    {
      assert str[..|s|][len] == s[len];
      len := len + 1;
    }
    assert len < |s| ==> str[..|s|][len] == s[len];
    EndsAt(s, len);
  }

  lemma {:induction false} EndsAt(s: string, n: nat)
    requires n <= |ToNul(s)| && (n == |s| || s[n] == '\0')
    ensures n == |ToNul(s)|
  {
    if n > 0 { EndsAt(s[1..], n - 1); }
  }

  // ---- What a format written from its parts stands for ----

  datatype Number = Literal(digits: string) | Star

  // A character, or a directive
  datatype Piece =
    | Plain(c: char)
    | Directive(flags: string, width: Number, precision: Option<Number>, size: string, conversion: char)

  predicate IsNumber(n: Number) {
    n.Literal? ==> forall i :: 0 <= i < |n.digits| ==> '0' <= n.digits[i] <= '9'
  }

  predicate Writable(p: Piece) {
    match p
    case Plain(c) => c != '%'
    case Directive(flags, width, precision, size, conversion) =>
      && (forall i :: 0 <= i < |flags| ==> flags[i] in "-+ #0")
      && IsNumber(width) && (width.Literal? && width.digits != [] ==> width.digits[0] != '0')
      && (precision.Some? ==> IsNumber(precision.value))
      && size in ["", "h", "l", "ll", "q", "L"] && IsConversion(conversion)
  }

  // What is neither a flag nor of a number or a size: unknown conversions write nothing.
  predicate IsConversion(c: char) {
    c !in "-+ #0123456789*.hlqL"
  }

  function WrittenNumber(n: Number): string {
    if n.Star? then "*" else n.digits
  }

  function WrittenPrecision(n: Option<Number>): string {
    if n.None? then [] else "." + WrittenNumber(n.value)
  }

  function Written(p: Piece): string {
    match p
    case Plain(c) => [c]
    case Directive(flags, width, precision, size, conversion) =>
      "%" + flags + WrittenNumber(width) + WrittenPrecision(precision) + size + [conversion]
  }

  function WrittenAll(ps: seq<Piece>): string {
    if ps == [] then [] else Written(ps[0]) + WrittenAll(ps[1..])
  }

  function WithFlags(fl: Flags, flags: string): Flags
    decreases |flags|
  {
    if flags == [] then fl else WithFlags(WithFlag(fl, flags[0]), flags[1..])
  }

  // The number in decimal behind n
  function Decimal(n: int, digits: string): int
    decreases |digits|
  {
    if digits == [] then n else Decimal(10 * n + (digits[0] as int - '0' as int), digits[1..])
  }

  function NumberOf(n: Number, call: Call, a: nat): int {
    if n.Star? then Int32(call.args(a).num) else Decimal(0, n.digits)
  }

  // No precision, or none behind the dot, is the precision -1.
  function PrecisionOf(n: Option<Number>, call: Call, a: nat): int {
    if n.None? || n.value == Literal([]) then -1 else NumberOf(n.value, call, a)
  }

  function Stars(n: Option<Number>): nat {
    if n.Some? && n.value.Star? then 1 else 0
  }

  function SizeOf(size: string): Size {
    if size == "h" then Short else if size == "l" then Long else if size in ["ll", "q"] then LongLong
    else if size == "L" then LongDouble else Standard
  }

  // What a piece takes and writes
  function TakenBy(p: Piece): nat {
    if p.Plain? then 0 else Stars(Some(p.width)) + Stars(p.precision) + Taken(p.conversion)
  }

  // A conversion 'w' skips the character behind it.
  function Skipped(p: Piece): nat {
    if p.Directive? && p.conversion == 'w' then 1 else 0
  }

  function Rendered(p: Piece, call: Call, a: nat): string {
    match p
    case Plain(c) => [c]
    case Directive(flags, width, precision, size, conversion) =>
      var b := a + Stars(Some(width));
      var c := b + Stars(precision);
      Converted(conversion, call, call.args(c), WithFlags(NOFLAGS, flags),
        NumberOf(width, call, a), PrecisionOf(precision, call, b), SizeOf(size))
  }

  function TakenByAll(ps: seq<Piece>): nat {
    if ps == [] then 0 else TakenBy(ps[0]) + TakenByAll(ps[1..])
  }

  function RenderedAll(ps: seq<Piece>, call: Call, a: nat): string {
    if ps == [] then [] else Rendered(ps[0], call, a) + RenderedAll(ps[1..], call, a + TakenBy(ps[0]))
  }

  // The format has s at position k.
  predicate HasAt(call: Call, k: nat, s: string) {
    k + |s| <= |call.format| && call.format[k..k + |s|] == s
  }

  lemma HasParts(call: Call, k: nat, s: string, t: string)
    requires HasAt(call, k, s + t)
    ensures HasAt(call, k, s) && HasAt(call, k + |s|, t)
  {
    assert (s + t)[..|s|] == s && (s + t)[|s|..] == t;
  }

  lemma {:induction false} ReadFlags(call: Call, k: nat, a: nat, fl: Flags, flags: string)
    requires HasAt(call, k, flags) && forall i :: 0 <= i < |flags| ==> flags[i] in "-+ #0"
    requires k + |flags| < |call.format| && !IsFlag(call.format[k + |flags|])
    ensures FlagsAt(call, k, a, fl) == WidthAt(call, k + |flags|, a, WithFlags(fl, flags), 0)
    decreases |flags|
  {
    if flags != [] {
      assert call.format[k] == flags[0] && call.format[k + 1..k + |flags|] == flags[1..];
      ReadFlags(call, k + 1, a, WithFlag(fl, flags[0]), flags[1..]);
    }
  }

  lemma {:induction false} ReadWidth(call: Call, k: nat, a: nat, fl: Flags, min: int, digits: string)
    requires HasAt(call, k, digits) && IsNumber(Literal(digits))
    requires k + |digits| < |call.format| && !IsDigit(call.format[k + |digits|]) && call.format[k + |digits|] != '*'
    ensures WidthAt(call, k, a, fl, min) == DotAt(call, k + |digits|, a, fl, Decimal(min, digits))
    decreases |digits|
  {
    if digits != [] {
      assert call.format[k] == digits[0] && call.format[k + 1..k + |digits|] == digits[1..];
      ReadWidth(call, k + 1, a, fl, 10 * min + (digits[0] as int - '0' as int), digits[1..]);
    }
  }

  lemma {:induction false} ReadPrecision(call: Call, k: nat, a: nat, fl: Flags, min: int, max: int, digits: string)
    requires HasAt(call, k, digits) && IsNumber(Literal(digits)) && max >= -1
    requires k + |digits| < |call.format| && !IsDigit(call.format[k + |digits|]) && call.format[k + |digits|] != '*'
    ensures PrecisionAt(call, k, a, fl, min, max) ==
            SizeAt(call, k + |digits|, a, fl, min, if digits == [] then max else Decimal(Max(max, 0), digits))
    decreases |digits|
  {
    hide SizeAt, PrecisionAt;
    if digits == [] {
      PrecisionEnds(call, k, a, fl, min, max);
    } else {
      assert call.format[k] == digits[0] && call.format[k + 1..k + |digits|] == digits[1..];
      PrecisionDigit(call, k, a, fl, min, max);
      ReadPrecision(call, k + 1, a, fl, min, 10 * Max(max, 0) + (digits[0] as int - '0' as int), digits[1..]);
    }
  }

  lemma PrecisionDigit(call: Call, k: nat, a: nat, fl: Flags, min: int, max: int)
    requires k < |call.format| && IsDigit(call.format[k])
    ensures PrecisionAt(call, k, a, fl, min, max) ==
            PrecisionAt(call, k + 1, a, fl, min, 10 * Max(max, 0) + (call.format[k] as int - '0' as int))
  {
  }

  lemma PrecisionEnds(call: Call, k: nat, a: nat, fl: Flags, min: int, max: int)
    requires k < |call.format| && !IsDigit(call.format[k]) && call.format[k] != '*'
    ensures PrecisionAt(call, k, a, fl, min, max) == SizeAt(call, k, a, fl, min, max)
  {
  }

  lemma ReadWidthOf(call: Call, k: nat, a: nat, fl: Flags, n: Number)
    requires HasAt(call, k, WrittenNumber(n)) && IsNumber(n)
    requires var e := k + |WrittenNumber(n)|; e < |call.format| && !IsDigit(call.format[e]) && call.format[e] != '*'
    ensures WidthAt(call, k, a, fl, 0) ==
            DotAt(call, k + |WrittenNumber(n)|, a + Stars(Some(n)), fl, NumberOf(n, call, a))
  {
    if n.Literal? {
      ReadWidth(call, k, a, fl, 0, n.digits);
    } else {
      assert call.format[k..k + 1][0] == '*';
    }
  }

  lemma ReadPrecisionOf(call: Call, k: nat, a: nat, fl: Flags, min: int, n: Option<Number>)
    requires HasAt(call, k, WrittenPrecision(n)) && (n.Some? ==> IsNumber(n.value))
    requires var e := k + |WrittenPrecision(n)|;
      e < |call.format| && !IsDigit(call.format[e]) && call.format[e] !in "*."
    ensures DotAt(call, k, a, fl, min) ==
            SizeAt(call, k + |WrittenPrecision(n)|, a + Stars(n), fl, min, PrecisionOf(n, call, a))
  {
    hide SizeAt;
    if n.Some? {
      HasParts(call, k, ".", WrittenNumber(n.value));
      assert call.format[k..k + 1][0] == '.';
      if n.value.Literal? {
        ReadPrecision(call, k + 1, a, fl, min, -1, n.value.digits);
      } else {
        assert call.format[k + 1..k + 2][0] == '*';
        assert PrecisionAt(call, k + 1, a, fl, min, -1) == SizeAt(call, k + 2, a + 1, fl, min, Int32(call.args(a).num));
      }
    }
  }

  lemma ReadSize(call: Call, k: nat, a: nat, fl: Flags, min: int, max: int, size: string)
    requires HasAt(call, k, size) && size in ["", "h", "l", "ll", "q", "L"]
    requires k + |size| < |call.format| && call.format[k + |size|] !in "hlqL"
    ensures SizeAt(call, k, a, fl, min, max) == ConversionAt(call, k + |size|, a, fl, min, max, SizeOf(size))
  {
    hide ConversionAt;
    assert |size| > 0 ==> call.format[k..k + |size|][0] == size[0];
    assert |size| > 1 ==> call.format[k..k + |size|][1] == size[1];
  }

  // What the parts of a directive start with
  lemma SizeStart(size: string, c: char)
    requires size in ["", "h", "l", "ll", "q", "L"] && IsConversion(c)
    ensures var t3 := size + [c]; t3[0] !in "*." && !IsDigit(t3[0]) && !IsFlag(t3[0])
  {
  }

  lemma PartsStart(width: Number, precision: Option<Number>, t3: string)
    requires IsNumber(width) && (width.Literal? && width.digits != [] ==> width.digits[0] != '0')
    requires t3 != [] && t3[0] != '*' && !IsDigit(t3[0]) && !IsFlag(t3[0])
    ensures var t2 := WrittenPrecision(precision) + t3;
      t2[0] != '*' && !IsDigit(t2[0]) && !IsFlag(t2[0]) && !IsFlag((WrittenNumber(width) + t2)[0])
  {
    var t2 := WrittenPrecision(precision) + t3;
    assert precision.None? ==> t2 == t3;
    assert precision.Some? ==> t2[0] == '.';
    assert WrittenNumber(width) == [] ==> WrittenNumber(width) + t2 == t2;
  }

  lemma HasNext(call: Call, k: nat, s: string, t: string)
    requires HasAt(call, k, s + t) && t != []
    ensures HasAt(call, k, s) && HasAt(call, k + |s|, t) && k + |s| < |call.format| && call.format[k + |s|] == t[0]
  {
    HasParts(call, k, s, t);
    HasFirst(call, k + |s|, t);
  }

  // Where five parts behind a '%' are, and what they start with
  lemma PartsAt(call: Call, k: nat, f: string, w: string, r: string, s: string, t: string)
    requires HasAt(call, k, "%" + f + w + r + s + t) && t != []
    ensures var k1 := k + 1 + |f|; var k2 := k1 + |w|; var k3 := k2 + |r|; var k4 := k3 + |s|;
      && HasAt(call, k + 1, f) && HasAt(call, k1, w) && HasAt(call, k2, r) && HasAt(call, k3, s) && k4 < |call.format|
      && call.format[k] == '%' && call.format[k1] == (w + (r + (s + t)))[0] && call.format[k2] == (r + (s + t))[0]
      && call.format[k3] == (s + t)[0] && call.format[k4] == t[0]
  {
    hide HasAt;
    var t3 := s + t;
    var t2 := r + t3;
    var t1 := w + t2;
    Lists.Assoc("%" + f + w + r, s, t);
    Lists.Assoc("%" + f + w, r, t3);
    Lists.Assoc("%" + f, w, t2);
    Lists.Assoc("%", f, t1);
    HasFirst(call, k, "%" + (f + t1));
    HasParts(call, k, "%", f + t1);
    HasNext(call, k + 1, f, t1);
    ThreeAt(call, k + 1 + |f|, w, r, s, t);
  }

  lemma ThreeAt(call: Call, k1: nat, w: string, r: string, s: string, t: string)
    requires HasAt(call, k1, w + (r + (s + t))) && t != []
    ensures var k2 := k1 + |w|; var k3 := k2 + |r|; var k4 := k3 + |s|;
      && HasAt(call, k1, w) && HasAt(call, k2, r) && HasAt(call, k3, s) && k4 < |call.format|
      && call.format[k2] == (r + (s + t))[0] && call.format[k3] == (s + t)[0] && call.format[k4] == t[0]
  {
    hide HasAt;
    HasNext(call, k1, w, r + (s + t));
    HasNext(call, k1 + |w|, r, s + t);
    HasNext(call, k1 + |w| + |r|, s, t);
  }

  lemma DirectiveText(call: Call, k: nat, a: nat, p: Piece)
    requires p.Directive? && Writable(p) && HasAt(call, k, Written(p))
    ensures Text(call, k, a) == Before(Rendered(p, call, a), Text(call, k + |Written(p)| + Skipped(p), a + TakenBy(p)))
  {
    hide WrittenNumber, WrittenPrecision, HasAt, Text, Rendered, TakenBy, IsFlag, IsDigit, IsNumber;
    var w, r := WrittenNumber(p.width), WrittenPrecision(p.precision);
    SizeStart(p.size, p.conversion);
    PartsStart(p.width, p.precision, p.size + [p.conversion]);
    PartsAt(call, k, p.flags, w, r, p.size, [p.conversion]);
    var k1 := k + 1 + |p.flags|;
    ReadDirective(call, k, a, p, k1, k1 + |w|, k1 + |w| + |r|, k1 + |w| + |r| + |p.size|);
  }

  lemma HasFirst(call: Call, k: nat, s: string)
    requires HasAt(call, k, s) && s != []
    ensures k < |call.format| && call.format[k] == s[0]
  {
    assert call.format[k..k + |s|][0] == call.format[k];
  }

  // The parts of the directive, at k1 to k4
  lemma ReadDirective(call: Call, k: nat, a: nat, p: Piece, k1: nat, k2: nat, k3: nat, k4: nat)
    requires p.Directive? && Writable(p) && k < |call.format| && k4 < |call.format| && call.format[k] == '%'
    requires call.format[k4] == p.conversion
    requires k1 == k + 1 + |p.flags| && k2 == k1 + |WrittenNumber(p.width)|
    requires k3 == k2 + |WrittenPrecision(p.precision)| && k4 == k3 + |p.size|
    requires HasAt(call, k + 1, p.flags) && HasAt(call, k1, WrittenNumber(p.width))
    requires HasAt(call, k2, WrittenPrecision(p.precision)) && HasAt(call, k3, p.size)
    requires !IsFlag(call.format[k1]) && call.format[k2] != '*' && !IsDigit(call.format[k2])
    requires call.format[k3] !in "*." && !IsDigit(call.format[k3])
    ensures Text(call, k, a) == Before(Rendered(p, call, a), Text(call, k4 + 1 + Skipped(p), a + TakenBy(p)))
  {
    hide FlagsAt, WidthAt, DotAt, SizeAt, WrittenNumber, WrittenPrecision, HasAt,
      SizeOf, PrecisionOf, NumberOf, WithFlags, Converted,
      IsFlag, IsDigit, IsNumber, Taken;
    var fl, b := WithFlags(NOFLAGS, p.flags), a + Stars(Some(p.width));
    var min, max := NumberOf(p.width, call, a), PrecisionOf(p.precision, call, b);
    ReadFlags(call, k + 1, a, NOFLAGS, p.flags);
    ReadWidthOf(call, k1, a, fl, p.width);
    ReadPrecisionOf(call, k2, b, fl, min, p.precision);
    ReadSize(call, k3, b + Stars(p.precision), fl, min, max, p.size);
  }

  // A format written from characters and directives stands for the characters and what the
  // conversions write of the arguments that they take, in order.
  lemma {:induction false} PiecesText(call: Call, k: nat, a: nat, ps: seq<Piece>)
    requires (forall p :: p in ps ==> Writable(p) && Skipped(p) == 0) && HasAt(call, k, WrittenAll(ps))
    ensures Text(call, k, a) == Before(RenderedAll(ps, call, a), Text(call, k + |WrittenAll(ps)|, a + TakenByAll(ps)))
    decreases |ps|
  {
    hide Written, Rendered, Text, TakenBy, Writable, HasAt, Skipped, Before, WrittenAll, RenderedAll, TakenByAll;
    AllParts(call, a, ps);
    if ps == [] {
      Empty(Text(call, k, a));
    } else {
      var p, n := ps[0], |Written(ps[0])|;
      assert p in ps;
      HasParts(call, k, Written(p), WrittenAll(ps[1..]));
      PieceText(call, k, a, p);
      PiecesText(call, k + n, a + TakenBy(p), ps[1..]);
      Twice(Rendered(p, call, a), RenderedAll(ps[1..], call, a + TakenBy(p)),
            Text(call, k + n + |WrittenAll(ps[1..])|, a + TakenBy(p) + TakenByAll(ps[1..])));
    }
  }

  lemma AllParts(call: Call, a: nat, ps: seq<Piece>)
    ensures ps == [] ==> WrittenAll(ps) == [] && RenderedAll(ps, call, a) == [] && TakenByAll(ps) == 0
    ensures ps != [] ==> var p, rest := ps[0], ps[1..];
      && WrittenAll(ps) == Written(p) + WrittenAll(rest) && TakenByAll(ps) == TakenBy(p) + TakenByAll(rest)
      && RenderedAll(ps, call, a) == Rendered(p, call, a) + RenderedAll(rest, call, a + TakenBy(p))
  {
  }

  lemma Empty(o: Output)
    ensures Before([], o) == o
  {
  }

  lemma Twice(s: string, t: string, o: Output)
    ensures Before(s, Before(t, o)) == Before(s + t, o)
  {
  }

  lemma NoText(call: Call, k: nat, a: nat)
    requires k == |call.format|
    ensures Text(call, k, a) == NOTHING
  {
  }

  lemma PieceText(call: Call, k: nat, a: nat, p: Piece)
    requires Writable(p) && Skipped(p) == 0 && HasAt(call, k, Written(p))
    ensures Text(call, k, a) == Before(Rendered(p, call, a), Text(call, k + |Written(p)|, a + TakenBy(p)))
  {
    hide Text, Before, Converted, HasAt, WrittenNumber, WrittenPrecision, NumberOf, PrecisionOf;
    if p.Plain? {
      HasFirst(call, k, [p.c]);
      PlainStep(call, k, a);
    } else {
      DirectiveText(call, k, a, p);
    }
  }

  lemma PlainStep(call: Call, k: nat, a: nat)
    requires k < |call.format| && call.format[k] != '%'
    ensures Text(call, k, a) == Before([call.format[k]], Text(call, k + 1, a))
  {
  }

  // In particular, for a whole format: nothing is read behind its end.
  lemma WholeText(call: Call, ps: seq<Piece>)
    requires (forall p :: p in ps ==> Writable(p) && Skipped(p) == 0) && call.format == WrittenAll(ps)
    ensures Text(call, 0, 0) == Output(RenderedAll(ps, call, 0), false)
  {
    hide Text, RenderedAll, WrittenAll, TakenByAll, Writable, Skipped;
    PiecesText(call, 0, 0, ps);
    assert RenderedAll(ps, call, 0) + [] == RenderedAll(ps, call, 0);
    NoText(call, |call.format|, TakenByAll(ps));
  }

  // A format that ends in a conversion 'w' is read behind its end.
  lemma PastEnd(call: Call, ps: seq<Piece>, last: Piece)
    requires (forall p :: p in ps ==> Writable(p) && Skipped(p) == 0) && Writable(last) && Skipped(last) == 1
    requires call.format == WrittenAll(ps) + Written(last)
    ensures Text(call, 0, 0) == Output(RenderedAll(ps, call, 0), true)
  {
    hide Text, RenderedAll, WrittenAll, TakenByAll, Written, Rendered;
    var n, a := |WrittenAll(ps)|, TakenByAll(ps);
    PiecesText(call, 0, 0, ps);
    assert call.format[n..n + |Written(last)|] == Written(last);
    DirectiveText(call, n, a, last);
    LastText(call, n + |Written(last)| + 1, a + TakenBy(last), last);
    assert RenderedAll(ps, call, 0) + [] == RenderedAll(ps, call, 0);
  }

  lemma LastText(call: Call, k: nat, a: nat, p: Piece)
    requires k == |call.format| + 1 && Skipped(p) == 1
    ensures Text(call, k, a) == Output([], true)
    ensures forall b: nat :: Rendered(p, call, b) == []
  {
  }

  // The shortest such format, in any buffer
  lemma PercentW(call: Call, maxlen: nat)
    requires call.format == "%w"
    ensures Overrun(call, maxlen) <==> maxlen > 0
  {
    var w := Directive([], Literal([]), None, "", 'w');
    assert call.format == WrittenAll([]) + Written(w);
    PastEnd(call, [], w);
  }

  // A format without directives stands for itself, whatever letter it ends in.
  lemma {:induction false} PlainText(call: Call, k: nat, a: nat)
    requires '%' !in call.format && k <= |call.format|
    ensures Text(call, k, a) == Output(call.format[k..], false)
    decreases |call.format| - k
  {
    if k < |call.format| {
      PlainText(call, k + 1, a);
      assert call.format[k..] == [call.format[k]] + call.format[k + 1..];
    }
  }
}
