/** The variable table of an archived object: the type table of core/variable.c and
    AG_ObjectSaveVariables and AG_ObjectLoadVariables (core/object.c). */
module Variables {

  import opened ByteOrder
  import opened Wire
  import Words

  // The target types of agVariableTypes; Transient stands for those that are not saved.
  datatype Kind =
    Transient | Uint | Int | Uint8 | Sint8 | Uint16 | Sint16 | Uint32 | Sint32 | Uint64 | Sint64
    | Float | Double | Text | ConstText

  // The saved target types in the order of the table
  function Number(k: Kind): (i: nat)
    ensures i <= 14 && (k != Transient ==> i >= 1 && Nth(i) == k)
  {
    match k
    case Transient => 0
    case Uint => 1 case Int => 2
    case Uint8 => 3 case Sint8 => 4
    case Uint16 => 5 case Sint16 => 6
    case Uint32 => 7 case Sint32 => 8
    case Uint64 => 9 case Sint64 => 10
    case Float => 11 case Double => 12
    case Text => 13 case ConstText => 14
  }

  function Nth(i: nat): Kind
    requires 1 <= i <= 14
  {
    if i == 1 then Uint else if i == 2 then Int
    else if i == 3 then Uint8 else if i == 4 then Sint8
    else if i == 5 then Uint16 else if i == 6 then Sint16
    else if i == 7 then Uint32 else if i == 8 then Sint32
    else if i == 9 then Uint64 else if i == 10 then Sint64
    else if i == 11 then Float else if i == 12 then Double
    else if i == 13 then Text else ConstText
  }

  // The numerical code of a target type: both kinds of strings have the same.
  function Code(k: Kind): int {
    var i := Number(k);
    if i <= 12 then i - 1 else 13
  }

  lemma CodeOfNth(i: nat)
    requires 1 <= i <= 14
    ensures Code(Nth(i)) == if i <= 12 then i - 1 else 13
  {
  }

  // agVariableTypes, without the optional long double: after the empty type, each target
  // type has a row for itself and one for a pointer to it; the rows at the end are those
  // that are not saved.
  const ROWS: nat := 30

  function RowTarget(j: nat): Kind
    requires j < ROWS
  {
    if j == 0 || j == 29 then Transient else Nth((j + 1) / 2)
  }

  // The first row from j on with a code, or the length of the table
  function RowWith(code: int, j: nat): (r: nat)
    requires j <= ROWS
    ensures j <= r <= ROWS
    decreases ROWS - j
  {
    if j == ROWS || Code(RowTarget(j)) == code then j else RowWith(code, j + 1)
  }

  lemma {:induction false} RowWithFrom(code: int, j: nat, r: nat)
    requires j <= r < ROWS && Code(RowTarget(r)) == code
    requires forall i {:trigger RowTarget(i)} :: j <= i < r ==> Code(RowTarget(i)) != code
    ensures RowWith(code, j) == r
    decreases r - j
  {
    if j < r {
      var _ := RowTarget(j);
      RowWithFrom(code, j + 1, r);
    }
  }

  // The type an archived code stands for
  function Decoded(code: int): Kind {
    var j := RowWith(code, 0);
    if j < ROWS then RowTarget(j) else Transient
  }

  // The search in AG_ObjectLoadVariables
  method FindCode(code: int) returns (k: Kind)
    ensures k == Decoded(code)
  {
    var j := 0;
    while j < ROWS && Code(RowTarget(j)) != code
      invariant j <= ROWS && RowWith(code, 0) == RowWith(code, j)
    {
      j := j + 1;
    }
    k := if j < ROWS then RowTarget(j) else Transient;
  }

  lemma CodeOfRow(j: nat)
    requires j < ROWS
    ensures Code(RowTarget(j)) == if j == 0 || j == 29 then -1 else if j <= 24 then (j - 1) / 2 else 13
  {
    if 0 < j < 29 {
      CodeOfNth((j + 1) / 2);
    }
  }

  // The code of a type stands for it, except that constant strings share that of strings.
  lemma CodesDecode(k: Kind)
    ensures Decoded(Code(k)) == k <==> k != ConstText
    ensures Decoded(Code(ConstText)) == Text
  {
    hide RowWith;
    var i := if k == ConstText then 13 else Number(k);
    var r := if i == 0 then 0 else 2 * i - 1;
    forall j {:trigger RowTarget(j)} | 0 <= j < ROWS
      ensures Code(RowTarget(j)) == if j == 0 || j == 29 then -1 else if j <= 24 then (j - 1) / 2 else 13
    {
      CodeOfRow(j);
    }
    RowWithFrom(Code(k), 0, r);
    RowWithFrom(13, 0, 25);
  }

  // ---- Values ----

  // The bits of a number, or a string; Mixed are those of one type put in a variable of
  // another.
  datatype Value = Bits(v: nat) | Chars(s: Str) | Mixed(kind: Kind, value: Value)

  datatype Entry = Entry(name: Str, kind: Kind, value: Value)

  // A variable to save: one with an evaluation function is skipped if that fails.
  datatype Variable = Variable(entry: Entry, evaluates: bool)

  function Width(k: Kind): (w: nat)
    ensures w == 1 || w == 2 || w == 4 || w == 8
  {
    match k
    case Uint8 => 1 case Sint8 => 1
    case Uint16 => 2 case Sint16 => 2
    case Uint64 => 8 case Sint64 => 8 case Double => 8
    case _ => 4
  }

  function TypeCode(k: Kind): (c: nat)
    ensures c < 0x1_0000_0000
  {
    match k
    case Uint8 => UINT8 case Sint8 => UINT8
    case Uint16 => UINT16 case Sint16 => UINT16
    case Uint64 => UINT64 case Sint64 => UINT64
    case Float => FLOAT case Double => DOUBLE
    case _ => UINT32
  }

  predicate Numeric(k: Kind) {
    k != Transient && k != Text && k != ConstText
  }

  ghost predicate WellTyped(e: Entry) {
    && CString(e.name) && |e.name| < 40
    && (if Numeric(e.kind) then e.value.Bits? && e.value.v < Pow256(Width(e.kind))
        else e.kind == Transient || (e.value.Chars? && CString(e.value.s) && |e.value.s| < 0x1_0000_0000))
  }

  predicate Saved(x: Variable) {
    Code(x.entry.kind) != -1 && x.evaluates
  }

  function SavedOf(xs: seq<Variable>): (r: seq<Entry>)
    ensures |r| <= |xs|
  {
    if xs == [] then [] else (if Saved(xs[0]) then [xs[0].entry] else []) + SavedOf(xs[1..])
  }

  // ---- The encoding ----

  // The data of a constant string is not written at all.
  function DataImage(m: Mode, e: Entry): seq<Byte> {
    if Numeric(e.kind) && e.value.Bits? then IntImage(m, TypeCode(e.kind), e.value.v, Width(e.kind))
    else if e.kind == Text && e.value.Chars? then StringImage(m, e.value.s)
    else []
  }

  // The code as it is written, an unsigned number
  function CodeWord(k: Kind): (w: nat)
    ensures w < 0x1_0000_0000
  {
    Words.Uint32(Code(k))
  }

  function KeyImage(m: Mode, name: Str, k: Kind): seq<Byte> {
    StringImage(m, name) + IntImage(m, UINT32, CodeWord(k), 4)
  }

  function EntryImage(m: Mode, e: Entry): seq<Byte> {
    KeyImage(m, e.name, e.kind) + DataImage(m, e)
  }

  function EntryPrinter(m: Mode): Entry -> seq<Byte> {
    (e: Entry) => EntryImage(m, e)
  }

  function EntriesImage(m: Mode, es: seq<Entry>): seq<Byte> {
    Joined(EntryPrinter(m), es)
  }

  const PROP_TABLE: Str := [65, 71, 95, 80, 114, 111, 112, 84, 98, 108]  // "AG_PropTbl"

  function CountImage(m: Mode, n: nat): seq<Byte> {
    VersionImage(m, PROP_TABLE, Version(2, 1)) + IntImage(m, UINT32, n, 4)
  }

  function TableImage(m: Mode, es: seq<Entry>): seq<Byte> {
    CountImage(m, |es|) + EntriesImage(m, es)
  }

  // ---- The decoding ----

  function DataAt(m: Mode, d: seq<Byte>, at: nat, name: Str, k: Kind): Parsed<Entry> {
    if Numeric(k) then
      match IntAt(m, d, at, TypeCode(k), Width(k))
      case Nothing => Nothing
      case Just(v, p) => Just(Entry(name, k, Bits(v)), p)
    else if k == Text then
      match StringAt(m, d, at, 32767)
      case Nothing => Nothing
      case Just(s, p) => Just(Entry(name, k, Chars(s)), p)
    else Nothing
  }

  function KeyAt(m: Mode, d: seq<Byte>, at: nat): Parsed<(Str, Kind)> {
    match CopyAt(m, d, at, 64)
    case Nothing => Nothing
    case Just(key, p) =>
      if key.1 >= 64 then Nothing
      else match IntAt(m, d, p, UINT32, 4)
        case Nothing => Nothing
        case Just(w, q) => Just((key.0, Decoded(Words.Int32(w))), q)
  }

  function EntryAt(m: Mode, d: seq<Byte>, at: nat): Parsed<Entry> {
    match KeyAt(m, d, at)
    case Nothing => Nothing
    case Just(key, p) => DataAt(m, d, p, key.0, key.1)
  }

  function EntryReader(m: Mode, d: seq<Byte>): nat -> Parsed<Entry> {
    (p: nat) => EntryAt(m, d, p)
  }

  function EntriesAt(m: Mode, d: seq<Byte>, at: nat, count: nat): Parsed<seq<Entry>> {
    Many(EntryReader(m, d), at, count)
  }

  function CountAt(m: Mode, d: seq<Byte>, at: nat): Parsed<nat> {
    match VersionAt(m, d, at, PROP_TABLE, 2)
    case Nothing => Nothing
    case Just(_, p) => IntAt(m, d, p, UINT32, 4)
  }

  function TableAt(m: Mode, d: seq<Byte>, at: nat): Parsed<seq<Entry>> {
    match CountAt(m, d, at)
    case Nothing => Nothing
    case Just(count, p) => EntriesAt(m, d, p, count)
  }

  // ---- What is written reads back ----

  // A saved variable that AG_ObjectLoadVariables can give back: strings are limited in
  // length, and in debug mode cannot be read.
  ghost predicate Loadable(m: Mode, e: Entry) {
    WellTyped(e) && e.kind != Transient && (e.kind == Text ==> !m.debug && |e.value.s| <= 32767)
  }

  lemma KeyBack(m: Mode, d: seq<Byte>, at: nat, name: Str, k: Kind)
    requires |name| < 64 && k != Transient && HasAt(d, at, KeyImage(m, name, k))
    ensures KeyAt(m, d, at) == Just((name, if k == ConstText then Text else k), at + |KeyImage(m, name, k)|)
  {
    hide CopyAt, IntAt, StringImage, IntImage, KeyAt, Decoded, Words.Int32, CodeWord;
    var n, c := StringImage(m, name), IntImage(m, UINT32, CodeWord(k), 4);
    HasBoth(d, at, n, c);
    CopyBack(m, d, at, name, 64);
    Uint32Back(m, d, at + |n|, CodeWord(k));
    CodeReadsBack(k);
    KeyParts(m, d, at, (name, |name|), at + |n|, CodeWord(k), at + |n| + |c|);
  }

  // A name that does not fit its buffer of 64 bytes is not read.
  lemma LongKeyFails(m: Mode, d: seq<Byte>, at: nat, name: Str, k: Kind)
    requires 64 <= |name| < 0x1_0000_0000 && HasAt(d, at, KeyImage(m, name, k))
    ensures KeyAt(m, d, at) == Nothing
  {
    hide CopyAt, IntAt, StringImage;
    HasBoth(d, at, StringImage(m, name), IntImage(m, UINT32, CodeWord(k), 4));
    CopyCut(m, d, at, name, 64);
  }

  lemma KeyParts(m: Mode, d: seq<Byte>, at: nat, key: (Str, nat), p: nat, w: nat, q: nat)
    requires CopyAt(m, d, at, 64) == Just(key, p) && key.1 < 64 && IntAt(m, d, p, UINT32, 4) == Just(w, q)
    ensures KeyAt(m, d, at) == Just((key.0, Decoded(Words.Int32(w))), q)
  {
  }

  lemma CodeReadsBack(k: Kind)
    requires k != Transient
    ensures Decoded(Words.Int32(CodeWord(k))) == if k == ConstText then Text else k
  {
    Words.SignBack(Code(k));
    CodesDecode(k);
  }

  lemma DataBack(m: Mode, d: seq<Byte>, at: nat, e: Entry)
    requires Loadable(m, e) && e.kind != ConstText && HasAt(d, at, DataImage(m, e))
    ensures DataAt(m, d, at, e.name, e.kind) == Just(e, at + |DataImage(m, e)|)
  {
    if Numeric(e.kind) {
      IntBack(m, d, at, TypeCode(e.kind), e.value.v, Width(e.kind));
    } else {
      StringBack(m, d, at, e.value.s, 32767);
    }
  }

  // A saved variable reads back if and only if its type is not that of constant strings:
  // of those the data is missing, and the code stands for a string.
  lemma EntryBack(m: Mode, d: seq<Byte>, at: nat, e: Entry)
    requires Loadable(m, e) && HasAt(d, at, EntryImage(m, e))
    ensures EntryAt(m, d, at) == Just(e, at + |EntryImage(m, e)|) <==> e.kind != ConstText
  {
    hide KeyAt, DataAt, EntryAt, KeyImage, DataImage;
    var key := KeyImage(m, e.name, e.kind);
    HasBoth(d, at, key, DataImage(m, e));
    KeyBack(m, d, at, e.name, e.kind);
    EntryParts(m, d, at, e.name, if e.kind == ConstText then Text else e.kind, at + |key|);
    if e.kind != ConstText {
      DataBack(m, d, at + |key|, e);
    } else {
      DataKind(m, d, at + |key|, e.name, Text);
    }
  }

  lemma EntryParts(m: Mode, d: seq<Byte>, at: nat, name: Str, k: Kind, p: nat)
    requires KeyAt(m, d, at) == Just((name, k), p)
    ensures EntryAt(m, d, at) == DataAt(m, d, p, name, k)
  {
  }

  lemma DataKind(m: Mode, d: seq<Byte>, at: nat, name: Str, k: Kind)
    ensures DataAt(m, d, at, name, k).Just? ==> DataAt(m, d, at, name, k).val.kind == k
  {
  }

  // Any saved variable reads back if and only if it is no constant string, nor a string in debug
  // mode or of more than 32767 characters.
  lemma EntryExact(m: Mode, d: seq<Byte>, at: nat, e: Entry)
    requires WellTyped(e) && e.kind != Transient && HasAt(d, at, EntryImage(m, e))
    ensures EntryAt(m, d, at) == Just(e, at + |EntryImage(m, e)|) <==>
      e.kind != ConstText && (e.kind == Text ==> !m.debug && |e.value.s| <= 32767)
  {
    if Loadable(m, e) {
      EntryBack(m, d, at, e);
    } else {
      var key := KeyImage(m, e.name, e.kind);
      HasBoth(d, at, key, DataImage(m, e));
      KeyBack(m, d, at, e.name, e.kind);
      EntryParts(m, d, at, e.name, Text, at + |key|);
      StringBack(m, d, at + |key|, e.value.s, 32767);
    }
  }

  lemma EntriesBack(m: Mode, d: seq<Byte>, at: nat, es: seq<Entry>)
    requires forall e :: e in es ==> Loadable(m, e) && e.kind != ConstText
    requires HasAt(d, at, EntriesImage(m, es))
    ensures EntriesAt(m, d, at, |es|) == Just(es, at + |EntriesImage(m, es)|)
  {
    forall e | e in es
      ensures Reads(EntryReader(m, d), d, EntryPrinter(m)(e), e)
    {
      EntryReads(m, d, e);
    }
    ManyBack(EntryReader(m, d), EntryPrinter(m), d, at, es);
  }

  lemma EntryReads(m: Mode, d: seq<Byte>, e: Entry)
    requires Loadable(m, e) && e.kind != ConstText
    ensures Reads(EntryReader(m, d), d, EntryPrinter(m)(e), e)
  {
    forall p: nat | HasAt(d, p, EntryImage(m, e))
      ensures EntryReader(m, d)(p) == Just(e, p + |EntryImage(m, e)|)
    {
      EntryBack(m, d, p, e);
    }
  }

  lemma TextEntryFails(m: Mode, d: seq<Byte>, at: nat, e: Entry)
    requires m.debug && Loadable(m.(debug := false), e) && e.kind == Text && HasAt(d, at, EntryImage(m, e))
    ensures EntryAt(m, d, at) == Nothing
  {
    hide KeyAt, DataAt, EntryAt, KeyImage, DataImage;
    var key := KeyImage(m, e.name, e.kind);
    HasBoth(d, at, key, DataImage(m, e));
    KeyBack(m, d, at, e.name, e.kind);
    EntryParts(m, d, at, e.name, Text, at + |key|);
    TextDataFails(m, d, at + |key|, e);
  }

  lemma TextDataFails(m: Mode, d: seq<Byte>, at: nat, e: Entry)
    requires m.debug && e.kind == Text && e.value.Chars? && |e.value.s| <= 32767 && HasAt(d, at, DataImage(m, e))
    ensures DataAt(m, d, at, e.name, Text) == Nothing
  {
    hide StringAt, StringImage;
    StringBack(m, d, at, e.value.s, 32767);
  }

  // In debug mode strings are not read, nor is a table that holds one.
  lemma TextFails(m: Mode, d: seq<Byte>, e: Entry)
    requires m.debug && Loadable(m.(debug := false), e) && e.kind == Text
    ensures Fails(EntryReader(m, d), d, EntryPrinter(m)(e))
  {
    forall p: nat | HasAt(d, p, EntryImage(m, e))
      ensures EntryReader(m, d)(p) == Nothing
    {
      TextEntryFails(m, d, p, e);
    }
  }

  lemma ReadsOrFails(m: Mode, d: seq<Byte>, e: Entry)
    requires m.debug && Loadable(m.(debug := false), e) && e.kind != ConstText
    ensures if e.kind == Text then Fails(EntryReader(m, d), d, EntryPrinter(m)(e))
      else Reads(EntryReader(m, d), d, EntryPrinter(m)(e), e)
  {
    if e.kind == Text {
      TextFails(m, d, e);
    } else {
      EntryReads(m, d, e);
    }
  }

  lemma TableFails(m: Mode, d: seq<Byte>, at: nat, es: seq<Entry>, bad: Entry)
    requires |es| < 0x1_0000_0000 && forall e :: e in es ==> Loadable(m.(debug := false), e) && e.kind != ConstText
    requires m.debug && bad in es && bad.kind == Text && HasAt(d, at, TableImage(m, es))
    ensures TableAt(m, d, at) == Nothing
  {
    hide CountAt, CountImage, EntryReader, EntryPrinter, Loadable, Reads, Fails;
    HasBoth(d, at, CountImage(m, |es|), EntriesImage(m, es));
    CountBack(m, d, at, |es|);
    forall e | e in es
      ensures Reads(EntryReader(m, d), d, EntryPrinter(m)(e), e) || Fails(EntryReader(m, d), d, EntryPrinter(m)(e))
      ensures e == bad ==> Fails(EntryReader(m, d), d, EntryPrinter(m)(e))
    {
      ReadsOrFails(m, d, e);
    }
    ManyFails(EntryReader(m, d), EntryPrinter(m), d, at + |CountImage(m, |es|)|, es, bad);
  }

  lemma CountBack(m: Mode, d: seq<Byte>, at: nat, n: nat)
    requires n < 0x1_0000_0000 && HasAt(d, at, CountImage(m, n))
    ensures CountAt(m, d, at) == Just(n, at + |CountImage(m, n)|)
  {
    var v := VersionImage(m, PROP_TABLE, Version(2, 1));
    HasBoth(d, at, v, IntImage(m, UINT32, n, 4));
    VersionBack(m, d, at, PROP_TABLE, Version(2, 1));
    Uint32Back(m, d, at + |v|, n);
  }

  lemma TableBack(m: Mode, d: seq<Byte>, at: nat, es: seq<Entry>)
    requires |es| < 0x1_0000_0000 && forall e :: e in es ==> Loadable(m, e) && e.kind != ConstText
    requires HasAt(d, at, TableImage(m, es))
    ensures TableAt(m, d, at) == Just(es, at + |TableImage(m, es)|)
  {
    HasBoth(d, at, CountImage(m, |es|), EntriesImage(m, es));
    CountBack(m, d, at, |es|);
    EntriesBack(m, d, at + |CountImage(m, |es|)|, es);
  }

  // ---- Setting variables ----

  datatype Held = Held(kind: Kind, value: Value)

  // AG_SetUint and the like: a variable that is there keeps its type, whatever is put in;
  // AG_SetString makes it a string.
  function Set(vars: map<Str, Held>, e: Entry): map<Str, Held> {
    if e.name in vars && vars[e.name].kind != e.kind && e.kind != Text then
      vars[e.name := Held(vars[e.name].kind, Mixed(e.kind, e.value))]
    else
      vars[e.name := Held(e.kind, e.value)]
  }

  // A variable that is there keeps its type, unless a string is put in, and then holds the new
  // value as one of another type; others are left alone.
  lemma SetIs(vars: map<Str, Held>, e: Entry)
    ensures var now := Set(vars, e);
      && now.Keys == vars.Keys + {e.name} && (forall n :: n in vars && n != e.name ==> now[n] == vars[n])
      && now[e.name].kind == (if e.name in vars && e.kind != Text then vars[e.name].kind else e.kind)
      && now[e.name].value == if now[e.name].kind == e.kind then e.value else Mixed(e.kind, e.value)
  {
  }

  function SetAll(vars: map<Str, Held>, es: seq<Entry>): map<Str, Held>
    decreases |es|
  {
    if es == [] then vars else SetAll(Set(vars, es[0]), es[1..])
  }

  // Variables of different names, none of which is there with another type
  ghost predicate Settable(vars: map<Str, Held>, es: seq<Entry>) {
    && (forall i, j :: 0 <= i < j < |es| ==> es[i].name != es[j].name)
    && (forall e :: e in es && e.name in vars ==> vars[e.name].kind == e.kind)
  }

  // All of them are set to their values, and others are left as they were.
  lemma {:induction false} SetAllSets(vars: map<Str, Held>, es: seq<Entry>)
    requires Settable(vars, es)
    ensures forall e :: e in es ==> e.name in SetAll(vars, es) && SetAll(vars, es)[e.name] == Held(e.kind, e.value)
    ensures forall n :: n in vars && (forall e :: e in es ==> e.name != n) ==>
      n in SetAll(vars, es) && SetAll(vars, es)[n] == vars[n]
    ensures forall n :: n in SetAll(vars, es) ==> n in vars || exists e :: e in es && e.name == n
    decreases |es|
  {
    if es != [] {
      var e, rest, vars1 := es[0], es[1..], Set(vars, es[0]);
      assert forall x :: x in rest ==> x.name != e.name;
      SetAllSets(vars1, rest);
      assert e.name in vars1;
    }
  }
}
