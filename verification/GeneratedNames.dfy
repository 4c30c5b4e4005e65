/** Names generated for new objects (core/object.c: AG_ObjectGenName): a class name and a number,
    in a buffer of fixed size.  A number that does not fit is cut from the front, so that there are
    only so many names to try, and the search does not end when children have them all. */
module GeneratedNames {

  import opened CString
  import opened VfsPath

  const NUMBERS: nat := 0x1_0000_0000  // of the type Uint

  function Generated(cls: string, i: nat): string {
    cls + " #" + Decimal(i)
  }

  // The last n characters
  function LastChars(s: string, n: nat): string {
    if |s| <= n then s else s[|s| - n..]
  }

  function Front(cls: string, len: nat): string
    requires len > 0
  {
    Take(cls + " #", len - 1)
  }

  // How many digits fit behind the class name
  function Room(cls: string, len: nat): nat
    requires len > 0
  {
    len - 1 - |Front(cls, len)|
  }

  // The name that is tried for a number
  function TryName(cls: string, i: nat, len: nat): string
    requires len > 0
  {
    Front(cls, len) + LastChars(Decimal(i), Room(cls, len))
  }

  ghost predicate IsFree(children: seq<Node>, cls: string, i: nat, len: nat)
    requires len > 0
    reads children`name
  {
    ChildNamed(children, TryName(cls, i, len)) == null
  }

  // AG_ObjectGenName for a parent with these children: the first name tried that none of them
  // has.  When the numbers start again from zero the search does not end; `hangs` stands for that.
  method GenName(children: seq<Node>, cls: string, name: array<char>, len: nat) returns (hangs: bool, ghost tries: nat)
    requires NoNul(cls) && 0 < len <= name.Length
    modifies name
    ensures hangs <==> forall i: nat :: 0 <= i < NUMBERS ==> !IsFree(children, cls, i, len)
    ensures hangs <==> forall i: nat :: 0 <= i < Count(Room(cls, len)) ==> !IsFree(children, cls, i, len)
    ensures !hangs ==> tries > 0 && IsFree(children, cls, tries - 1, len)
    ensures !hangs ==> Holds(name, 0, TryName(cls, tries - 1, len))
    ensures !hangs ==> forall i :: 0 <= i < tries - 1 ==> !IsFree(children, cls, i, len)
    ensures |children| < Count(Room(cls, len)) ==> !hangs && tries <= |children| + 1
  {
    hide TryName, Holds, ChildNamed, Count;
    var i: nat := 0;
    hangs, tries := false, 0;
    var ch := PrintName(children, cls, name, len, i);
    while ch != null
      invariant i < NUMBERS && ch == ChildNamed(children, TryName(cls, i, len)) && Holds(name, 0, TryName(cls, i, len))
      invariant forall k :: 0 <= k < i ==> !IsFree(children, cls, k, len)
      decreases NUMBERS - i
    {
      assert !IsFree(children, cls, i, len);
      if i + 1 == NUMBERS {
        hangs := true;
        HangsWhen(children, cls, len);
        FreeSoon(children, cls, len, NUMBERS);
        return;
      }
      i := i + 1;
      ch := PrintName(children, cls, name, len, i);
    }
    assert IsFree(children, cls, i, len);
    tries := i + 1;
    HangsWhen(children, cls, len);
    FreeSoon(children, cls, len, i);
  }

  // tryname: the i-th name, and the child that has it
  method PrintName(children: seq<Node>, cls: string, name: array<char>, len: nat, i: nat) returns (ch: Node?)
    requires NoNul(cls) && 0 < len <= name.Length
    modifies name
    ensures Holds(name, 0, TryName(cls, i, len)) && ch == ChildNamed(children, TryName(cls, i, len))
  {
    Print(cls, name, len, i);
    var end := End(name, 0, TryName(cls, i, len));
    ch := NamedChild(children, name[..end]);
  }

  method Print(cls: string, name: array<char>, len: nat, i: nat)
    requires NoNul(cls) && 0 < len <= name.Length
    modifies name
    ensures Holds(name, 0, TryName(cls, i, len))
  {
    hide Decimal, Holds, LastChars, Take, Sign;
    var at := PrintFront(cls, name, len);
    NoSign(Decimal(i), len - 1 - at);
    var _ := PutNumber(name, at, false, i, len);
    NumberBehind(name, at, Take(cls + " #", len - 1), LastChars(Decimal(i), len - 1 - at));
  }

  lemma NoSign(d: string, n: nat)
    ensures Sign(false) + d == d && LastChars(d, n) == if |d| <= n then d else d[|d| - n..]
  {
  }

  method PrintFront(cls: string, name: array<char>, len: nat) returns (at: nat)
    requires NoNul(cls) && 0 < len <= name.Length
    modifies name
    ensures var front := Take(cls + " #", len - 1); at == |front| < len && name[..at] == front && NoNul(front)
  {
    var _ := Strlcpy(name, cls, len);
    TakeTwice(cls, " #", len - 1);
    var _ := Strlcat(name, " #", len, Take(cls, len - 1));
    at := End(name, 0, Take(cls + " #", len - 1));
  }

  lemma TakeTwice(a: string, b: string, n: nat)
    ensures Take(Take(a, n) + b, n) == Take(a + b, n)
  {
  }

  lemma NumberBehind(a: array<char>, at: nat, s: string, d: string)
    requires at == |s| <= a.Length && a[..at] == s && NoNul(s) && Holds(a, at, d)
    ensures Holds(a, 0, s + d)
  {
    assert a[..at + |d|] == a[..at] + a[at..at + |d|];
  }

  // The walk over the children that compares their names
  method NamedChild(children: seq<Node>, name: string) returns (ch: Node?)
    ensures ch == ChildNamed(children, name)
  {
    var i := 0;
    while i < |children| && children[i].name != name
      invariant i <= |children| && ChildNamed(children, name) == ChildNamed(children[i..], name)
    {
      assert children[i..][1..] == children[i + 1..];
      i := i + 1;
    }
    ch := if i < |children| then children[i] else null;
  }

  // ---- How many names there are ----

  // The last r digits of n, with zeros where n has fewer
  function Padded(n: nat, r: nat): (s: string)
    ensures |s| == r
  {
    if r == 0 then "" else Padded(n / 10, r - 1) + [Digit(n % 10)]
  }

  // Their value
  function Low(n: nat, r: nat): nat {
    if r == 0 then 0 else 10 * Low(n / 10, r - 1) + n % 10
  }

  lemma {:induction false} PaddedValue(n: nat, r: nat)
    ensures Value(Padded(n, r)) == Low(n, r) < Pow10(r)
  {
    if r > 0 {
      PaddedValue(n / 10, r - 1);
      assert Padded(n, r)[..r - 1] == Padded(n / 10, r - 1);
    }
  }

  lemma {:induction false} PaddedLow(n: nat, r: nat)
    ensures Padded(Low(n, r), r) == Padded(n, r)
  {
    hide Digit;
    if r > 0 { PaddedLow(n / 10, r - 1); }
  }

  lemma {:induction false} LowOf(n: nat, r: nat)
    ensures n < Pow10(r) ==> Low(n, r) == n
    ensures Low(Pow10(r) + n, r) == Low(n, r)
  {
    if r > 0 { LowOf(n / 10, r - 1); }
  }

  // A numeral of at least r digits ends in those.
  lemma {:induction false} LastPadded(n: nat, r: nat)
    requires |Decimal(n)| >= r
    ensures LastChars(Decimal(n), r) == Padded(n, r)
  {
    if r > 0 && n >= 10 {
      LastPadded(n / 10, r - 1);
      var s := Decimal(n / 10);
      assert LastChars(s + [Digit(n % 10)], r) == LastChars(s, r - 1) + [Digit(n % 10)];
    }
  }

  // A number has more than r digits if and only if it is that large.
  lemma {:induction false} DigitsOf(n: nat, r: nat)
    requires r > 0
    ensures n < Pow10(r) <==> |Decimal(n)| <= r
  {
    PowGrows(1, r);
    if n >= 10 {
      SomeDigit(n / 10);
      if r > 1 { DigitsOf(n / 10, r - 1); }
    }
  }

  lemma SomeDigit(n: nat)
    ensures |Decimal(n)| > 0
  {
  }

  lemma {:induction false} PowGrows(a: nat, b: nat)
    requires a <= b
    ensures Pow10(a) <= Pow10(b)
    decreases b
  {
    if a < b { PowGrows(a, b - 1); }
  }

  // How many names there are for r digits: the numerals that fit, and those cut to a zero and
  // what follows it
  function Count(r: nat): nat {
    if r == 0 then 1 else if r == 1 then 10 else if r < 10 then Pow10(r) + Pow10(r - 1) else NUMBERS
  }

  lemma CountIs(r: nat)
    ensures 0 < Count(r) <= NUMBERS
  {
    if 1 < r < 10 {
      PowGrows(r, 9);
      PowGrows(r - 1, 8);
      assert Pow10(8) == 100_000_000 && Pow10(9) == 1_000_000_000;
    }
  }

  // Every number fits ten digits.
  lemma TenDigits(i: nat, r: nat)
    requires i < NUMBERS && r >= 10
    ensures LastChars(Decimal(i), r) == Decimal(i)
  {
    DigitsOf(i, 10);
    assert Pow10(10) == 10_000_000_000;
  }

  lemma SuffixValue(i: nat, r: nat)
    requires 0 < r < 10 && i < Count(r)
    ensures var s := LastChars(Decimal(i), r);
      if i < Pow10(r) then s == Decimal(i) && Value(s) == i
      else r > 1 && |s| == r && Value(s) == i - Pow10(r) < Pow10(r - 1)
  {
    DigitsOf(i, r);
    if i < Pow10(r) {
      DecimalReadsBack(i);
    } else {
      LastPadded(i, r);
      PaddedValue(i, r);
      LowOf(i - Pow10(r), r);
    }
  }

  // The first names are all different.
  lemma NamesDiffer(i: nat, j: nat, r: nat)
    requires i < j < Count(r)
    ensures LastChars(Decimal(i), r) != LastChars(Decimal(j), r)
  {
    if r >= 10 {
      TenDigits(i, r);
      TenDigits(j, r);
      DecimalReadsBack(i);
      DecimalReadsBack(j);
    } else if r > 0 {
      SuffixValue(i, r);
      SuffixValue(j, r);
      if r > 1 { DigitsOf(i, r - 1); }
    }
  }

  // The number with the same last digits that has a name of the first ones
  ghost function Earlier(i: nat, r: nat): nat
    requires r > 0
  {
    var x := Low(i, r);
    if r == 1 || x >= Pow10(r - 1) then x else Pow10(r) + x
  }

  lemma EarlierLow(i: nat, r: nat)
    requires 0 < r < 10
    ensures var j := Earlier(i, r); j < Count(r) && Low(j, r) == Low(i, r) && |Decimal(j)| >= r
  {
    hide Padded, Value, Decimal;
    var x, j := Low(i, r), Earlier(i, r);
    PaddedValue(i, r);
    LowOf(x, r);
    SomeDigit(j);
    PowGrows(r - 1, r);
    if r > 1 { DigitsOf(j, r - 1); }
  }

  // All others are one of them again.
  lemma Covered(i: nat, r: nat) returns (j: nat)
    requires i < NUMBERS
    ensures j < Count(r) && LastChars(Decimal(j), r) == LastChars(Decimal(i), r)
  {
    hide Padded, Low, Decimal, Earlier;
    if i < Count(r) {
      j := i;
    } else if r == 0 {
      j := 0;
      assert LastChars(Decimal(j), r) == LastChars(Decimal(i), r) == "";
    } else {
      j := Earlier(i, r);
      EarlierLow(i, r);
      AtLeast(i, r);
      LastPadded(i, r);
      LastPadded(j, r);
      PaddedLow(i, r);
      PaddedLow(j, r);
    }
  }

  lemma AtLeast(i: nat, r: nat)
    requires 0 < r < 10 && i >= Count(r)
    ensures |Decimal(i)| >= r
  {
    hide Decimal;
    DigitsOf(i, r);
    if r == 1 { SomeDigit(i); }
  }

  // The search does not end if and only if the first names are taken, as many as there are.
  lemma HangsWhen(children: seq<Node>, cls: string, len: nat)
    requires len > 0
    ensures (forall i :: 0 <= i < NUMBERS ==> !IsFree(children, cls, i, len)) <==>
            (forall i :: 0 <= i < Count(Room(cls, len)) ==> !IsFree(children, cls, i, len))
  {
    CountIs(Room(cls, len));
    if forall i :: 0 <= i < Count(Room(cls, len)) ==> !IsFree(children, cls, i, len) {
      forall i | 0 <= i < NUMBERS
        ensures !IsFree(children, cls, i, len)
      {
        var j := Covered(i, Room(cls, len));
        assert TryName(cls, j, len) == TryName(cls, i, len) && !IsFree(children, cls, j, len);
      }
    }
  }

  // ---- There is a free name among more than there are children ----

  ghost function Names(s: seq<Node>): (r: set<string>)
    reads s`name
    ensures |r| <= |s|
  {
    if s == [] then {} else {s[0].name} + Names(s[1..])
  }

  lemma {:induction false} NameIn(s: seq<Node>, x: Node)
    requires x in s
    ensures x.name in Names(s)
  {
    if x != s[0] {
      NameIn(s[1..], x);
    }
  }

  ghost function Tried(cls: string, len: nat, n: nat): set<string>
    requires len > 0
  {
    if n == 0 then {} else Tried(cls, len, n - 1) + {TryName(cls, n - 1, len)}
  }

  // Children with the first n names are n at least.
  lemma AllTried(s: seq<Node>, cls: string, len: nat, n: nat)
    requires len > 0 && n <= Count(Room(cls, len)) && Tried(cls, len, n) <= Names(s)
    ensures n <= |s|
  {
    TriedSize(cls, len, n);
    assert Names(s) == Tried(cls, len, n) + (Names(s) - Tried(cls, len, n));
  }

  lemma {:induction false} TriedSize(cls: string, len: nat, n: nat)
    requires len > 0 && n <= Count(Room(cls, len))
    ensures |Tried(cls, len, n)| == n
  {
    if n > 0 {
      TriedSize(cls, len, n - 1);
      NotTried(cls, len, n - 1, n - 1);
    }
  }

  lemma {:induction false} NotTried(cls: string, len: nat, n: nat, m: nat)
    requires len > 0 && m <= n < Count(Room(cls, len))
    ensures TryName(cls, n, len) !in Tried(cls, len, m)
  {
    if m > 0 {
      NotTried(cls, len, n, m - 1);
      NamesDiffer(m - 1, n, Room(cls, len));
      SameEnd(Front(cls, len), LastChars(Decimal(m - 1), Room(cls, len)), LastChars(Decimal(n), Room(cls, len)));
    }
  }

  lemma SameEnd(a: string, b: string, c: string)
    ensures a + b == a + c ==> b == c
  {
    assert (a + b)[|a|..] == b && (a + c)[|a|..] == c;
  }

  lemma {:induction false} TakenAll(children: seq<Node>, cls: string, len: nat, n: nat)
    requires len > 0 && forall k :: 0 <= k < n ==> !IsFree(children, cls, k, len)
    ensures Tried(cls, len, n) <= Names(children)
  {
    if n > 0 {
      TakenAll(children, cls, len, n - 1);
      assert !IsFree(children, cls, n - 1, len);
      NameIn(children, ChildNamed(children, TryName(cls, n - 1, len)));
    }
  }

  // With fewer children than there are names, no more tries than children fail.
  lemma FreeSoon(children: seq<Node>, cls: string, len: nat, i: nat)
    requires len > 0 && forall k :: 0 <= k < i ==> !IsFree(children, cls, k, len)
    ensures |children| < Count(Room(cls, len)) ==> i <= |children| < NUMBERS
  {
    CountIs(Room(cls, len));
    if |children| < Count(Room(cls, len)) && i > |children| {
      TakenAll(children, cls, len, |children| + 1);
      AllTried(children, cls, len, |children| + 1);
    }
  }

  // If the number of children fits behind the class name, there are more names than children,
  // and those tried up to that number are not cut.
  lemma Enough(n: nat, cls: string, len: nat)
    requires n < NUMBERS && |cls| + 2 + |Decimal(n)| < len
    ensures n < Count(Room(cls, len)) && forall i :: 0 <= i <= n ==> TryName(cls, i, len) == Generated(cls, i)
  {
    DigitsOf(n, Room(cls, len));
    forall i | 0 <= i <= n
      ensures TryName(cls, i, len) == Generated(cls, i)
    {
      DecimalGrows(i, n);
    }
  }

  lemma {:induction false} DecimalGrows(m: nat, n: nat)
    requires m <= n
    ensures |Decimal(m)| <= |Decimal(n)|
  {
    if m >= 10 { DecimalGrows(m / 10, n / 10); }
  }

  // Without room for a digit there is one name.
  lemma NoRoom(cls: string, len: nat, i: nat)
    requires 0 < len <= |cls| + 3
    ensures Count(Room(cls, len)) == 1 && TryName(cls, i, len) == Front(cls, len)
  {
    assert LastChars(Decimal(i), 0) == "" && Front(cls, len) + "" == Front(cls, len);
  }
}
