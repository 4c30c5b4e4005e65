/** The bytes of an archive: where everything is in them, in both orders and with or without the
    type codes of debug mode.  It is what the functions of Wire and Variables write. */
module Format {

  import opened ByteOrder
  import opened Wire
  import opened Variables

  datatype Form = Form(o: Order, debug: bool)

  function ModeOf(f: Form): Mode {
    Mode(f.debug, CodecOf(f.o))
  }

  // The bytes of a type code
  function Ahead(f: Form): nat {
    if f.debug then 4 else 0
  }

  // ---- Numbers and strings ----

  // A type code, in debug mode: the letters "AG", a zero and a number in the order BE
  ghost predicate TagIs(d: seq<Byte>, at: nat, f: Form, n: Byte) {
    f.debug ==> at + 4 <= |d| && d[at..at + 4] == if f.o == BE then [0x41, 0x47, 0, n] else [n, 0, 0x47, 0x41]
  }

  // A number of k bytes behind its type code
  ghost predicate NumberIs(d: seq<Byte>, at: nat, f: Form, n: Byte, v: nat, k: nat) {
    TagIs(d, at, f, n) && at + Ahead(f) + k <= |d| && Weighs(d[at + Ahead(f)..at + Ahead(f) + k], f.o, v)
  }

  ghost predicate WordIs(d: seq<Byte>, at: nat, f: Form, v: nat) {
    NumberIs(d, at, f, 5, v, 4)
  }

  function WordSize(f: Form): nat {
    Ahead(f) + 4
  }

  // A string behind its type code and a length without one
  ghost predicate StringIs(d: seq<Byte>, at: nat, f: Form, s: Str) {
    var p := at + WordSize(f);
    NumberIs(d, at, f, 0xc, |s|, 4) && p + |s| <= |d| && d[p..p + |s|] == s
  }

  function StringSize(f: Form, s: Str): nat {
    WordSize(f) + |s|
  }

  // A name in a field of 48 bytes, with a NUL, over the letters "agar", and two numbers
  ghost predicate VersionIs(d: seq<Byte>, at: nat, f: Form, name: Str, major: nat, minor: nat) {
    var n := if |name| < 48 then |name| else 47;
    && at + 48 <= |d| && d[at..at + n] == name[..n] && d[at + n] == 0
    && (forall i :: n < i < 48 ==> d[at + i] == [97, 103, 97, 114][i % 4])
    && WordIs(d, at + 48, f, major) && WordIs(d, at + 48 + WordSize(f), f, minor)
  }

  function VersionSize(f: Form): nat {
    48 + 2 * WordSize(f)
  }

  // The type codes that the model has by their numbers
  function CodeOf(n: Byte): nat {
    0x4147_0000 + n
  }

  lemma Codes()
    ensures UINT8 == CodeOf(1) && UINT16 == CodeOf(3) && UINT32 == CodeOf(5) && UINT64 == CodeOf(7)
    ensures FLOAT == CodeOf(9) && DOUBLE == CodeOf(0xa) && STRING == CodeOf(0xc)
  {
  }

  lemma TagBytes(o: Order, n: Byte)
    ensures Bytes(o, CodeOf(n), 4) == if o == BE then [0x41, 0x47, 0, n] else [n, 0, 0x47, 0x41]
  {
    var d: seq<Byte> := if o == BE then [0x41, 0x47, 0, n] else [n, 0, 0x47, 0x41];
    Value4(o, d);
    assert Pow256(4) == 0x1_0000_0000;
    ReadsBack(o, CodeOf(n), 4);
    SameValue(o, Bytes(o, CodeOf(n), 4), d);
  }

  lemma TagPlaced(f: Form, d: seq<Byte>, at: nat, n: Byte)
    requires HasAt(d, at, Tag(ModeOf(f), CodeOf(n)))
    ensures TagIs(d, at, f, n) && |Tag(ModeOf(f), CodeOf(n))| == Ahead(f)
  {
    TagBytes(f.o, n);
  }

  lemma NumberPlaced(f: Form, d: seq<Byte>, at: nat, n: Byte, v: nat, k: nat)
    requires HasAt(d, at, IntImage(ModeOf(f), CodeOf(n), v, k))
    ensures NumberIs(d, at, f, n, v, k) && |IntImage(ModeOf(f), CodeOf(n), v, k)| == Ahead(f) + k
  {
    hide Bytes, TagIs;
    HasBoth(d, at, Tag(ModeOf(f), CodeOf(n)), Bytes(f.o, v, k));
    TagPlaced(f, d, at, n);
    BytesWeigh(f.o, v, k);
  }

  lemma StringPlaced(f: Form, d: seq<Byte>, at: nat, s: Str)
    requires HasAt(d, at, StringImage(ModeOf(f), s))
    ensures StringIs(d, at, f, s) && |StringImage(ModeOf(f), s)| == StringSize(f, s)
  {
    hide Bytes, TagIs;
    var t, b := Tag(ModeOf(f), CodeOf(0xc)), Bytes(f.o, |s|, 4);
    HasBoth(d, at, t, b + s);
    TagPlaced(f, d, at, 0xc);
    HasBoth(d, at + |t|, b, s);
    BytesWeigh(f.o, |s|, 4);
  }

  lemma VersionPlaced(f: Form, d: seq<Byte>, at: nat, name: Str, ver: Version)
    requires HasAt(d, at, VersionImage(ModeOf(f), name, ver))
    ensures VersionIs(d, at, f, name, ver.major, ver.minor)
    ensures |VersionImage(ModeOf(f), name, ver)| == VersionSize(f)
  {
    hide IntImage, NumberIs;
    var a, b := IntImage(ModeOf(f), CodeOf(5), ver.major, 4), IntImage(ModeOf(f), CodeOf(5), ver.minor, 4);
    HasBoth(d, at, NameField(name), a + b);
    HasBoth(d, at + 48, a, b);
    NumberPlaced(f, d, at + 48, 5, ver.major, 4);
    NumberPlaced(f, d, at + 48 + |a|, 5, ver.minor, 4);
    FieldPlaced(d[at..at + 48], name);
    var n := if |name| < 48 then |name| else 47;
    assert d[at..at + n] == d[at..at + 48][..n];
    forall i | n <= i < 48
      ensures d[at + i] == if i == n then 0 else [97, 103, 97, 114][i % 4]
    {
      assert d[at + i] == d[at..at + 48][i];
    }
  }

  lemma FieldPlaced(b: seq<Byte>, name: Str)
    requires b == NameField(name)
    ensures var n := if |name| < 48 then |name| else 47;
      b[..n] == name[..n] && b[n] == 0 && forall i :: n < i < 48 ==> b[i] == [97, 103, 97, 114][i % 4]
  {
  }

  // ---- Tables ----

  ghost predicate StringsAre(d: seq<Byte>, at: nat, f: Form, ss: seq<Str>, end: nat)
    decreases |ss|
  {
    if ss == [] then end == at
    else StringIs(d, at, f, ss[0]) && StringsAre(d, at + StringSize(f, ss[0]), f, ss[1..], end)
  }

  lemma {:induction false} StringsPlaced(f: Form, d: seq<Byte>, at: nat, ss: seq<Str>, image: Str -> seq<Byte>)
    requires forall s :: image(s) == StringImage(ModeOf(f), s)
    requires HasAt(d, at, Joined(image, ss))
    ensures StringsAre(d, at, f, ss, at + |Joined(image, ss)|)
    decreases |ss|
  {
    hide StringImage, StringIs;
    if ss != [] {
      HasBoth(d, at, image(ss[0]), Joined(image, ss[1..]));
      StringPlaced(f, d, at, ss[0]);
      StringsPlaced(f, d, at + StringSize(f, ss[0]), ss[1..], image);
    }
  }

  // The code of a type in the table of types, and the type code and size of its numbers; strings
  // have neither.
  function RowOf(k: Kind): (nat, Byte, nat)
    requires k != Transient
  {
    match k
    case Uint => (0, 5, 4) case Int => (1, 5, 4)
    case Uint8 => (2, 1, 1) case Sint8 => (3, 1, 1)
    case Uint16 => (4, 3, 2) case Sint16 => (5, 3, 2)
    case Uint32 => (6, 5, 4) case Sint32 => (7, 5, 4)
    case Uint64 => (8, 7, 8) case Sint64 => (9, 7, 8)
    case Float => (10, 9, 4) case Double => (11, 0xa, 8)
    case Text => (13, 0, 0) case ConstText => (13, 0, 0)
  }

  lemma RowIs(k: Kind)
    requires k != Transient
    ensures var r := RowOf(k); CodeWord(k) == r.0 && (Numeric(k) <==> r.2 > 0)
    ensures var r := RowOf(k); Numeric(k) ==> TypeCode(k) == CodeOf(r.1) && Width(k) == r.2
  {
  }

  // A name, the code of a type, and the number or string; nothing for a constant string
  ghost predicate EntryIs(d: seq<Byte>, at: nat, f: Form, e: Entry)
    requires WellTyped(e) && e.kind != Transient
  {
    var p, r := at + StringSize(f, e.name), RowOf(e.kind);
    var q := p + WordSize(f);
    && StringIs(d, at, f, e.name) && WordIs(d, p, f, r.0)
    && (r.2 > 0 && e.value.Bits? ==> NumberIs(d, q, f, r.1, e.value.v, r.2))
    && (e.kind == Text && e.value.Chars? ==> StringIs(d, q, f, e.value.s))
  }

  function EntrySize(f: Form, e: Entry): nat
    requires e.kind != Transient
  {
    StringSize(f, e.name) + WordSize(f) + if RowOf(e.kind).2 > 0 then Ahead(f) + RowOf(e.kind).2
      else if e.kind == Text && e.value.Chars? then StringSize(f, e.value.s) else 0
  }

  lemma EntryPlaced(f: Form, d: seq<Byte>, at: nat, e: Entry)
    requires WellTyped(e) && e.kind != Transient && HasAt(d, at, EntryImage(ModeOf(f), e))
    ensures EntryIs(d, at, f, e) && |EntryImage(ModeOf(f), e)| == EntrySize(f, e)
  {
    hide StringImage, IntImage, StringIs, NumberIs;
    var m, r := ModeOf(f), RowOf(e.kind);
    RowIs(e.kind);
    var n, c := StringImage(m, e.name), IntImage(m, CodeOf(5), r.0, 4);
    HasBoth(d, at, n + c, DataImage(m, e));
    HasBoth(d, at, n, c);
    StringPlaced(f, d, at, e.name);
    NumberPlaced(f, d, at + |n|, 5, r.0, 4);
    if Numeric(e.kind) {
      NumberPlaced(f, d, at + |n| + |c|, r.1, e.value.v, r.2);
    } else if e.kind == Text {
      StringPlaced(f, d, at + |n| + |c|, e.value.s);
    }
  }

  ghost predicate EntriesAre(d: seq<Byte>, at: nat, f: Form, es: seq<Entry>, end: nat)
    requires forall e :: e in es ==> WellTyped(e) && e.kind != Transient
    decreases |es|
  {
    if es == [] then end == at
    else EntryIs(d, at, f, es[0]) && EntriesAre(d, at + EntrySize(f, es[0]), f, es[1..], end)
  }

  lemma {:induction false} EntriesPlaced(f: Form, d: seq<Byte>, at: nat, es: seq<Entry>)
    requires forall e :: e in es ==> WellTyped(e) && e.kind != Transient
    requires HasAt(d, at, EntriesImage(ModeOf(f), es))
    ensures EntriesAre(d, at, f, es, at + |EntriesImage(ModeOf(f), es)|)
    decreases |es|
  {
    hide EntryImage, EntryIs, EntrySize, WellTyped;
    if es != [] {
      HasBoth(d, at, EntryImage(ModeOf(f), es[0]), EntriesImage(ModeOf(f), es[1..]));
      EntryPlaced(f, d, at, es[0]);
      EntriesPlaced(f, d, at + EntrySize(f, es[0]), es[1..]);
    }
  }

  // The table of variables: the version 2.1 of "AG_PropTbl", the number of variables, and they
  ghost predicate TableIs(d: seq<Byte>, at: nat, f: Form, es: seq<Entry>, end: nat)
    requires forall e :: e in es ==> WellTyped(e) && e.kind != Transient
  {
    var p := at + VersionSize(f);
    && VersionIs(d, at, f, [65, 71, 95, 80, 114, 111, 112, 84, 98, 108], 2, 1)
    && WordIs(d, p, f, |es|) && EntriesAre(d, p + WordSize(f), f, es, end)
  }

  lemma TablePlaced(f: Form, d: seq<Byte>, at: nat, es: seq<Entry>)
    requires forall e :: e in es ==> WellTyped(e) && e.kind != Transient
    requires HasAt(d, at, TableImage(ModeOf(f), es))
    ensures TableIs(d, at, f, es, at + |TableImage(ModeOf(f), es)|)
  {
    hide VersionImage, IntImage, EntriesImage, VersionIs, NumberIs, EntriesAre, WellTyped;
    var m := ModeOf(f);
    var v, n := VersionImage(m, PROP_TABLE, Version(2, 1)), IntImage(m, CodeOf(5), |es|, 4);
    HasBoth(d, at, v + n, EntriesImage(m, es));
    HasBoth(d, at, v, n);
    VersionPlaced(f, d, at, PROP_TABLE, Version(2, 1));
    NumberPlaced(f, d, at + |v|, 5, |es|, 4);
    EntriesPlaced(f, d, at + |v| + |n|, es);
  }
}
