/** NUL-terminated strings in fixed-size buffers: the copying, reversing and decimal
    printing functions of core/string.c. */
module CString {

  import opened Lists

  predicate NoNul(s: string) {
    '\0' !in s
  }

  // The buffer holds the C string s from index `at` on.
  ghost predicate Holds(a: array<char>, at: nat, s: string)
    reads a
  {
    at + |s| < a.Length && a[at..at + |s|] == s && a[at + |s|] == '\0' && NoNul(s)
  }

  // What fits in n characters
  function Take(s: string, n: nat): string {
    if |s| <= n then s else s[..n]
  }

  // AG_Strlcpy: all of src if it fits with its NUL, or as much as does; the result tells.
  method Strlcpy(dst: array<char>, src: string, siz: nat) returns (r: nat)
    requires siz <= dst.Length && NoNul(src)
    modifies dst
    ensures r == |src| && (siz > 0 ==> Holds(dst, 0, Take(src, siz - 1)))
    ensures dst[siz..] == old(dst[siz..])
  {
    var d, n := 0, siz;
    if n != 0 {
      n := n - 1;
      while n != 0 && d < |src|
        invariant d + n == siz - 1 && d <= |src|
        invariant dst[..d] == src[..d] && dst[siz..] == old(dst[siz..])
      {
        dst[d] := src[d];
        d, n := d + 1, n - 1;
      }
      dst[d] := '\0';
    }
    r := |src|;
  }

  // The length of the C string at the start of the buffer, but no more than siz
  method Measure(dst: array<char>, siz: nat, ghost s: string) returns (d: nat)
    requires Holds(dst, 0, s) && siz <= dst.Length
    ensures d == if |s| < siz then |s| else siz
  {
    d := 0;
    while d < siz && dst[d] != '\0'
      invariant d <= siz && d <= |s|
    {
      assert d < |s| ==> dst[d] == s[d];
      d := d + 1;
    }
    assert d < |s| ==> dst[..|s|][d] == s[d];
  }

  // AG_Strlcat: the same for src put behind what is there already.
  method Strlcat(dst: array<char>, src: string, siz: nat, ghost s: string) returns (r: nat)
    requires Holds(dst, 0, s) && siz <= dst.Length && NoNul(src)
    modifies dst
    ensures r == |src| + if |s| < siz then |s| else siz
    ensures Holds(dst, 0, if |s| < siz then Take(s + src, siz - 1) else s)
    ensures dst[siz..] == old(dst[siz..])
  {
    var dlen := Measure(dst, siz, s);
    var d, n, i := dlen, siz - dlen, 0;
    if n == 0 {
      return dlen + |src|;
    }
    assert dst[..d] == s + src[..0];
    while i < |src|
      invariant i <= |src| && n >= 1 && d + n == siz
      invariant d == if dlen + i < siz then dlen + i else siz - 1
      invariant dst[..d] == (s + src[..i])[..d] && dst[siz..] == old(dst[siz..])
    {
      if n != 1 {
        dst[d] := src[i];
        d, n := d + 1, n - 1;
      }
      i := i + 1;
    }
    assert s + src[..i] == s + src;
    dst[d] := '\0';
    r := dlen + |src|;
  }

  lemma {:induction false} ReversedAt(s: string)
    ensures |Reversed(s)| == |s|
    ensures forall k :: 0 <= k < |s| ==> Reversed(s)[k] == s[|s| - 1 - k]
  {
    if s != [] {
      ReversedAt(s[1..]);
    }
  }

  // The search for the NUL
  method End(a: array<char>, at: nat, ghost s: string) returns (q: nat)
    requires Holds(a, at, s)
    ensures q == at + |s|
  {
    q := at;
    assert forall k :: at <= k < at + |s| ==> a[k] == s[k - at] && s[k - at] in s;
    while a[q] != '\0'
      invariant at <= q <= at + |s|
      decreases at + |s| - q
    {
      q := q + 1;
    }
  }

  // The exchange of characters from both ends, p < --q
  method Mirror(a: array<char>, lo: nat, hi: nat)
    requires lo <= hi <= a.Length
    modifies a
    ensures forall k :: lo <= k < hi ==> a[k] == old(a[lo + hi - 1 - k])
    ensures forall k :: 0 <= k < lo || hi <= k < a.Length ==> a[k] == old(a[k])
  {
    var p, q := lo, hi - 1;
    while p < q
      invariant lo <= p <= q + 2 && p + q == lo + hi - 1
      invariant forall k :: 0 <= k < lo || hi <= k < a.Length || p <= k <= q ==> a[k] == old(a[k])
      invariant forall k :: lo <= k < p || q < k < hi ==> a[k] == old(a[lo + hi - 1 - k])
    {
      a[p], a[q] := a[q], a[p];
      p, q := p + 1, q - 1;
    }
  }

  // AG_StrReverse, on the string at index `at`
  method StrReverse(a: array<char>, at: nat, ghost s: string)
    requires Holds(a, at, s)
    modifies a
    ensures Holds(a, at, Reversed(s))
    ensures a[..at] == old(a[..at]) && a[at + |s|..] == old(a[at + |s|..])
  {
    ReversedAt(s);
    var q := End(a, at, s);
    ghost var was := a[..];
    assert forall k :: at <= k < q ==> was[k] == s[k - at];
    Mirror(a, at, q);
    assert forall k :: at <= k < q ==> a[k] == was[at + q - 1 - k] == Reversed(s)[k - at];
    assert a[at..q] == Reversed(s);
    assert a[..at] == was[..at] && a[q..] == was[q..] && was[q] == '\0';
    NoNulReversed(s);
  }

  lemma NoNulReversed(s: string)
    requires NoNul(s)
    ensures NoNul(Reversed(s))
  {
    ReversedAt(s);
    forall k | 0 <= k < |s| ensures Reversed(s)[k] != '\0' {
      assert s[|s| - 1 - k] in s;
    }
  }

  // ---- Decimal numbers ----

  function Digit(d: nat): char
    requires d < 10
  {
    "0123456789"[d]
  }

  function Decimal(n: nat): (s: string)
    ensures |s| >= 1 && NoNul(s)
  {
    if n < 10 then [Digit(n)] else Decimal(n / 10) + [Digit(n % 10)]
  }

  function DigitValue(c: char): int {
    c as int - '0' as int
  }

  function Value(s: string): int {
    if s == [] then 0 else 10 * Value(s[..|s| - 1]) + DigitValue(s[|s| - 1])
  }

  // The digits read back to the number, so different numbers have different digits.
  lemma {:induction false} DecimalReadsBack(n: nat)
    ensures Value(Decimal(n)) == n
  {
    if n < 10 {
      assert Value([Digit(n)]) == 10 * Value([]) + DigitValue(Digit(n));
    } else {
      DecimalReadsBack(n / 10);
      var s := Decimal(n);
      assert s[..|s| - 1] == Decimal(n / 10);
    }
  }

  // A 32-bit number has at most ten digits.
  lemma {:induction false} DecimalLength(n: nat, k: nat, bound: nat)
    requires k >= 1 && bound == Pow10(k) && n < bound
    ensures |Decimal(n)| <= k
  {
    if k > 1 && n >= 10 {
      DecimalLength(n / 10, k - 1, Pow10(k - 1));
    }
  }

  function Pow10(k: nat): nat {
    if k == 0 then 1 else 10 * Pow10(k - 1)
  }

  function Sign(neg: bool): string {
    if neg then "-" else ""
  }

  // A numeral with its sign, read as a number
  function SignedValue(s: string): int {
    if s != "" && s[0] == '-' then -Value(s[1..]) else Value(s)
  }

  // Digits, without zeros ahead of them
  predicate Numeral(s: string) {
    s != "" && (forall i :: 0 <= i < |s| ==> '0' <= s[i] <= '9') && (|s| > 1 ==> s[0] != '0')
  }

  lemma {:induction false} DecimalNumeral(n: nat)
    ensures Numeral(Decimal(n)) && (n > 0 ==> Decimal(n)[0] != '0')
  {
    if n >= 10 { DecimalNumeral(n / 10); }
  }

  // s is the numeral of val, or of its negative, as a number and as digits
  predicate SignedNumeral(s: string, neg: bool, val: nat) {
    && SignedValue(s) == (if neg then -1 else 1) * val
    && (neg ==> s != "") && Numeral(if neg then s[1..] else s)
  }

  lemma SignedBack(neg: bool, val: nat)
    ensures SignedNumeral(Sign(neg) + Decimal(val), neg, val)
  {
    hide Decimal, Value, Numeral;
    DecimalReadsBack(val);
    DecimalNumeral(val);
    NoMinus(Decimal(val));
    assert ("-" + Decimal(val))[1..] == Decimal(val) && "" + Decimal(val) == Decimal(val);
  }

  lemma NoMinus(s: string)
    requires Numeral(s)
    ensures s != "" && s[0] != '-'
  {
  }

  // What one more digit of v does, when put holds those before it
  lemma OneMoreDigit(s: string, v: nat, put: string)
    requires s == Decimal(v) + Reversed(put)
    ensures s == (if v / 10 > 0 then Decimal(v / 10) else "") + Reversed(put + [Digit(v % 10)])
  {
    ReversedConcat(put, [Digit(v % 10)]);
  }

  // The digits of val from the last to the first, as far as there is room; rest are those
  // there was no room for.
  method PutDigits(a: array<char>, at: nat, val: nat, size: nat) returns (i: nat, ghost rest: string)
    requires at < size <= a.Length
    modifies a
    ensures at < i <= size && Decimal(val) == rest + Reversed(a[at..i])
    ensures rest != "" ==> i == size
    ensures a[..at] == old(a[..at])
  {
    var v, more := val, true;
    i := at;
    while more && i < size
      invariant at <= i <= size && a[..at] == old(a[..at])
      invariant if more then Decimal(val) == Decimal(v) + Reversed(a[at..i])
        else i > at && Decimal(val) == Reversed(a[at..i])
      decreases more, v
    {
      ghost var put := a[at..i];
      OneMoreDigit(Decimal(val), v, put);
      a[i] := Digit(v % 10);
      assert a[at..i + 1] == put + [Digit(v % 10)];
      i, v := i + 1, v / 10;
      more := v > 0;
    }
    rest := if more then Decimal(v) else "";
  }

  // The sign behind the digits, if there is one and room for it
  method PutSign(a: array<char>, at: nat, neg: bool, i0: nat, size: nat, ghost rest0: string)
    returns (i: nat, ghost rest: string)
    requires at < i0 <= size <= a.Length && (rest0 != "" ==> i0 == size)
    modifies a
    ensures at < i <= size && Sign(neg) + (rest0 + Reversed(old(a[at..i0]))) == rest + Reversed(a[at..i])
    ensures rest != "" ==> i == size
    ensures a[..at] == old(a[..at])
  {
    i, rest := i0, Sign(neg) + rest0;
    if i < size && neg {
      ghost var put := a[at..i];
      a[i] := '-';
      i := i + 1;
      assert a[at..i] == put + ['-'];
      ReversedConcat(put, ['-']);
      rest := "";
    }
  }

  // The number printing of AG_StrlcpyUint, AG_StrlcpyInt, AG_StrlcatUint and AG_StrlcatInt,
  // which start it at index 0 or behind the string already there.  If the number does not
  // fit with its NUL, what is kept are its last digits.
  method PutNumber(a: array<char>, at: nat, neg: bool, val: nat, size: nat) returns (r: nat)
    requires (size == 0 || at < size) && size <= a.Length
    modifies a
    ensures size == 0 ==> r == 1 && a[..] == old(a[..])
    ensures var s := Sign(neg) + Decimal(val);
      size > 0 ==> if at + |s| < size then r == at + |s| && Holds(a, at, s)
      else r == size + 1 && |s| >= size - 1 - at && Holds(a, at, s[|s| - (size - 1 - at)..])
    ensures size > 0 ==> a[..at] == old(a[..at])
    ensures size > 0 && r < size ==> at < r && a[r] == '\0' && SignedNumeral(a[at..r], neg, val)
  {
    hide Decimal, SignedNumeral;
    SignedBack(neg, val);
    if size < 1 {
      return 1;
    }
    var i: nat;
    ghost var rest: string;
    i, rest := PutDigits(a, at, val, size);
    i, rest := PutSign(a, at, neg, i, size, rest);
    r := Terminate(a, at, i, size, rest, Sign(neg) + Decimal(val));
  }

  // The end of both: the NUL, for which the last character may have to go, and the reversal
  method Terminate(a: array<char>, at: nat, i: nat, size: nat, ghost rest: string, ghost s: string) returns (r: nat)
    requires at < i <= size <= a.Length && (rest != "" ==> i == size)
    requires NoNul(s) && s == rest + Reversed(a[at..i])
    modifies a
    ensures if at + |s| < size then r == at + |s| && Holds(a, at, s)
      else r == size + 1 && |s| >= size - 1 - at && Holds(a, at, s[|s| - (size - 1 - at)..])
    ensures a[..at] == old(a[..at])
  {
    ghost var put := a[at..i];
    ReversedAt(put);
    if i < size {
      NoNulSuffix("", put, s);
      a[i] := '\0';
      StrReverse(a, at, put);
      r := i;
    } else {
      put := a[at..i - 1];
      assert a[at..i] == put + [a[i - 1]];
      ReversedConcat(put, [a[i - 1]]);
      NoNulSuffix(rest + [a[i - 1]], put, s);
      a[size - 1] := '\0';
      assert a[at..size - 1] == put;
      StrReverse(a, at, put);
      r := i + 1;
    }
  }

  lemma NoNulSuffix(a: string, b: string, s: string)
    requires NoNul(s) && s == a + Reversed(b)
    ensures NoNul(b) && |b| <= |s| && Reversed(b) == s[|s| - |b|..]
  {
    ReversedAt(b);
    forall k | 0 <= k < |b| ensures b[k] != '\0' {
      assert Reversed(b)[|b| - 1 - k] in s;
    }
  }
}
