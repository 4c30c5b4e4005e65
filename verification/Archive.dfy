/** Saving an object to a memory source and loading it back (core/object.c:
    AG_ObjectSerialize, AG_ObjectUnserialize and what they call). */
module Archive {

  import opened Options
  import opened ByteOrder
  import opened Wire
  import opened DataSource
  import opened Flags
  import opened Variables
  import opened Format

  const OBJECT_NAME: Str := [65, 71, 95, 79, 98, 106, 101, 99, 116]  // "AG_Object"

  // Bit numbers of AG_OBJECT_SAVED_FLAGS (0xE55), AG_OBJECT_CHLD_AUTOSAVE (0x2000) and
  // AG_OBJECT_DEBUG_DATA (0x4000)
  const SAVED_FLAGS: set<nat> := {0, 2, 4, 6, 9, 10, 11}
  const CHLD_AUTOSAVE: nat := 13
  const DEBUG_DATA: nat := 14


  // The save and load functions of one class, for its part of the object's data
  datatype Hook<!S> = Hook(save: Option<(S, Mode) -> seq<Byte>>, load: Option<(Mode, seq<Byte>, nat) -> Parsed<S>>)

  datatype Class<!S> = Class(name: Str, hier: Str, libs: Str, ver: Version, hooks: seq<Hook<S>>)

  datatype Child = Child(name: Str, hier: Str, persistent: bool)

  // A dependency to save: the absolute path of the object
  datatype Dep = Dep(path: Str, persistent: bool)

  type Flagword = f: Bits | |f| == 32 witness seq(32, _ => false)

  // What AG_ObjectSerialize sees of an object
  datatype Object<!S> = Object(
    cls: Class<S>, flags: Flagword, deps: seq<Dep>, vars: seq<Variable>, children: seq<Child>, parts: seq<S>)

  function PathsOf(deps: seq<Dep>): (r: seq<Str>)
    ensures |r| <= |deps|
  {
    if deps == [] then [] else (if deps[0].persistent then [deps[0].path] else []) + PathsOf(deps[1..])
  }

  function Entered(cs: seq<Child>): (r: seq<Child>)
    ensures |r| <= |cs|
  {
    if cs == [] then [] else (if cs[0].persistent then [cs[0]] else []) + Entered(cs[1..])
  }

  function EnteredOf<S>(ob: Object<S>): seq<Child> {
    if ob.flags[CHLD_AUTOSAVE] then Entered(ob.children) else []
  }

  // The constants of core/object.h
  lemma MaskIs(f: Flagword)
    requires forall j :: 0 <= j < 32 ==> f[j]
    ensures WordOf(And(f, SAVED_FLAGS)) == 0xE55
    ensures WordOf(And(f, {CHLD_AUTOSAVE})) == 0x2000 && WordOf(And(f, {DEBUG_DATA})) == 0x4000
  {
    hide And, WordOf;
    MaskDigits(f, SAVED_FLAGS);
    MaskDigits(f, {CHLD_AUTOSAVE});
    MaskDigits(f, {DEBUG_DATA});
  }

  // flags & AG_OBJECT_SAVED_FLAGS
  function SavedWord<S>(ob: Object<S>): (w: nat)
    ensures w < 0x1_0000_0000
  {
    WordFits(And(ob.flags, SAVED_FLAGS));
    WordOf(And(ob.flags, SAVED_FLAGS))
  }

  // ---- The image of an object ----

  function Word(m: Mode, v: nat): (r: seq<Byte>)
    ensures |r| == TagSize(m) + 4
  {
    IntImage(m, UINT32, v, 4)
  }

  function StringPrinter(m: Mode): Str -> seq<Byte> {
    (s: Str) => StringImage(m, s)
  }

  function ChildPrinter(m: Mode): Child -> seq<Byte> {
    (c: Child) => StringImage(m, c.name) + StringImage(m, c.hier)
  }

  // Signature and class, up to the offset of the dataset
  function LeadImage<S>(m: Mode, cls: Class<S>): seq<Byte> {
    VersionImage(m, OBJECT_NAME, Version(7, 2)) + (StringImage(m, cls.hier) + StringImage(m, cls.libs))
  }

  function DepsImage(m: Mode, paths: seq<Str>): seq<Byte> {
    Word(m, |paths|) + Joined(StringPrinter(m), paths)
  }

  function ChildrenImage(m: Mode, cs: seq<Child>): seq<Byte> {
    Word(m, |cs|) + Joined(ChildPrinter(m), cs)
  }

  // Dependencies, variables and children
  function BodyImage<S>(m: Mode, ob: Object<S>): seq<Byte> {
    DepsImage(m, PathsOf(ob.deps)) + (TableImage(m, SavedOf(ob.vars)) + ChildrenImage(m, EnteredOf(ob)))
  }

  function HooksImage<S>(m: Mode, hooks: seq<Hook<S>>, parts: seq<S>): seq<Byte>
    requires |hooks| == |parts|
  {
    if hooks == [] then []
    else (if hooks[0].save.Some? then hooks[0].save.value(parts[0], m) else []) + HooksImage(m, hooks[1..], parts[1..])
  }

  // The mode the class functions run in
  function DataMode(m: Mode, flags: Flagword): Mode {
    if flags[DEBUG_DATA] then m.(debug := true) else m
  }

  function DataImage<S>(m: Mode, ob: Object<S>): seq<Byte>
    requires |ob.cls.hooks| == |ob.parts|
  {
    VersionImage(m, ob.cls.name, ob.cls.ver) + HooksImage(DataMode(m, ob.flags), ob.cls.hooks, ob.parts)
  }

  // The whole, from offset base on: the offset of the dataset is that of its first byte.
  function ObjectImage<S>(m: Mode, base: nat, ob: Object<S>): seq<Byte>
    requires |ob.cls.hooks| == |ob.parts|
  {
    HeaderImage(m, base, ob) + (BodyImage(m, ob) + DataImage(m, ob))
  }

  function HeaderImage<S>(m: Mode, base: nat, ob: Object<S>): seq<Byte> {
    LeadImage(m, ob.cls) + (Word(m, DataOffset(m, base, ob)) + Word(m, SavedWord(ob)))
  }

  function DataOffset<S>(m: Mode, base: nat, ob: Object<S>): nat {
    Offset(m, base, |LeadImage(m, ob.cls)|, |BodyImage(m, ob)|)
  }

  function Offset(m: Mode, base: nat, lead: nat, body: nat): nat {
    (base + lead + 2 * (TagSize(m) + 4) + body) % 0x1_0000_0000
  }

  // ---- The bytes of an archived object ----

  ghost predicate ChildrenAre(d: seq<Byte>, at: nat, f: Form, cs: seq<Child>, end: nat)
    decreases |cs|
  {
    if cs == [] then end == at
    else
      var p := at + StringSize(f, cs[0].name);
      StringIs(d, at, f, cs[0].name) && StringIs(d, p, f, cs[0].hier)
        && ChildrenAre(d, p + StringSize(f, cs[0].hier), f, cs[1..], end)
  }

  lemma {:induction false} ChildrenPlaced(f: Form, d: seq<Byte>, at: nat, cs: seq<Child>)
    requires HasAt(d, at, Joined(ChildPrinter(ModeOf(f)), cs))
    ensures ChildrenAre(d, at, f, cs, at + |Joined(ChildPrinter(ModeOf(f)), cs)|)
    decreases |cs|
  {
    hide StringImage, StringIs, StringSize;
    if cs != [] {
      var n, h := StringImage(ModeOf(f), cs[0].name), StringImage(ModeOf(f), cs[0].hier);
      HasBoth(d, at, n + h, Joined(ChildPrinter(ModeOf(f)), cs[1..]));
      HasBoth(d, at, n, h);
      StringPlaced(f, d, at, cs[0].name);
      StringPlaced(f, d, at + |n|, cs[0].hier);
      ChildrenPlaced(f, d, at + |n| + |h|, cs[1..]);
    }
  }

  // Of the flags, those of the mask 0xE55
  ghost predicate FlagsIn(w: nat, flags: Flagword) {
    w < 0x1_0000_0000 && forall i :: 0 <= i < 32 ==> (Bit(w, i) <==> flags[i] && Bit(0xE55, i))
  }

  lemma FlagsMasked<S>(ob: Object<S>)
    ensures FlagsIn(SavedWord(ob), ob.flags)
  {
    hide WordOf, Bit, And;
    var all: Flagword := seq(32, _ => true);
    MaskIs(all);
    forall i | 0 <= i < 32
      ensures Bit(SavedWord(ob), i) <==> ob.flags[i] && Bit(0xE55, i)
    {
      BitsReadBack(And(ob.flags, SAVED_FLAGS), i);
      BitsReadBack(And(all, SAVED_FLAGS), i);
      AndAt(ob.flags, SAVED_FLAGS, i);
      AndAt(all, SAVED_FLAGS, i);
    }
  }

  // The header: the version 7.2 of "AG_Object", the class and its libraries, the offset of the
  // dataset, and the flags
  ghost predicate HeaderPlaced<S>(d: seq<Byte>, at: nat, f: Form, ob: Object<S>, dataset: nat, end: nat) {
    var p := at + VersionSize(f);
    var q := p + StringSize(f, ob.cls.hier);
    var r := q + StringSize(f, ob.cls.libs);
    && VersionIs(d, at, f, [65, 71, 95, 79, 98, 106, 101, 99, 116], 7, 2)
    && StringIs(d, p, f, ob.cls.hier) && StringIs(d, q, f, ob.cls.libs)
    && WordIs(d, r, f, dataset % 0x1_0000_0000)
    && (exists w :: FlagsIn(w, ob.flags) && WordIs(d, r + WordSize(f), f, w))
    && end == r + 2 * WordSize(f)
  }

  // The tables: the dependencies, the variables and the children, each behind their number
  ghost predicate BodyPlaced<S>(d: seq<Byte>, at: nat, f: Form, ob: Object<S>, end: nat)
    requires Storable(ob)
  {
    SavedTyped(ob.vars);
    exists p: nat, q: nat ::
      && WordIs(d, at, f, |PathsOf(ob.deps)|) && StringsAre(d, at + WordSize(f), f, PathsOf(ob.deps), p)
      && TableIs(d, p, f, SavedOf(ob.vars), q)
      && var cs := if ob.flags[13] then Entered(ob.children) else [];
        WordIs(d, q, f, |cs|) && ChildrenAre(d, q + WordSize(f), f, cs, end)
  }

  // The whole: the dataset starts with the version of the class, under its name.
  ghost predicate Placed<S>(d: seq<Byte>, at: nat, f: Form, ob: Object<S>)
    requires Storable(ob)
  {
    exists p: nat, q: nat ::
      && HeaderPlaced(d, at, f, ob, q, p) && BodyPlaced(d, p, f, ob, q)
      && VersionIs(d, q, f, ob.cls.name, ob.cls.ver.major, ob.cls.ver.minor)
      && HasAt(d, q + VersionSize(f), HooksImage(ModeOf(f.(debug := f.debug || ob.flags[14])), ob.cls.hooks, ob.parts))
  }

  lemma {:induction false} SavedTyped(xs: seq<Variable>)
    requires forall x :: x in xs ==> WellTyped(x.entry)
    ensures forall e :: e in SavedOf(xs) ==> WellTyped(e) && e.kind != Transient
  {
    if xs != [] { SavedTyped(xs[1..]); }
  }

  lemma LeadPlaced<S>(f: Form, d: seq<Byte>, at: nat, cls: Class<S>)
    requires HasAt(d, at, LeadImage(ModeOf(f), cls))
    ensures var p := at + VersionSize(f);
      && VersionIs(d, at, f, [65, 71, 95, 79, 98, 106, 101, 99, 116], 7, 2)
      && StringIs(d, p, f, cls.hier) && StringIs(d, p + StringSize(f, cls.hier), f, cls.libs)
      && |LeadImage(ModeOf(f), cls)| == VersionSize(f) + StringSize(f, cls.hier) + StringSize(f, cls.libs)
  {
    hide VersionImage, StringImage, VersionIs, StringIs, VersionSize, StringSize;
    var m := ModeOf(f);
    var v, h, l := VersionImage(m, OBJECT_NAME, Version(7, 2)), StringImage(m, cls.hier), StringImage(m, cls.libs);
    HasBoth(d, at, v, h + l);
    HasBoth(d, at + |v|, h, l);
    VersionPlaced(f, d, at, OBJECT_NAME, Version(7, 2));
    StringPlaced(f, d, at + |v|, cls.hier);
    StringPlaced(f, d, at + |v| + |h|, cls.libs);
  }

  lemma HeadPlaced<S>(f: Form, d: seq<Byte>, at: nat, ob: Object<S>, dataset: nat)
    requires HasAt(d, at, HeaderImage(ModeOf(f), at, ob))
    requires dataset == at + |HeaderImage(ModeOf(f), at, ob)| + |BodyImage(ModeOf(f), ob)|
    ensures HeaderPlaced(d, at, f, ob, dataset, at + |HeaderImage(ModeOf(f), at, ob)|)
  {
    hide LeadImage, IntImage, BodyImage, SavedWord, FlagsIn, NumberIs, VersionIs, StringIs, VersionSize, StringSize;
    var m := ModeOf(f);
    var l, o, w := LeadImage(m, ob.cls), DataOffset(m, at, ob), SavedWord(ob);
    HasBoth(d, at, l, Word(m, o) + Word(m, w));
    HasBoth(d, at + |l|, Word(m, o), Word(m, w));
    LeadPlaced(f, d, at, ob.cls);
    NumberPlaced(f, d, at + |l|, 5, o, 4);
    NumberPlaced(f, d, at + |l| + |Word(m, o)|, 5, w, 4);
    FlagsMasked(ob);
  }

  lemma TablesPlaced<S>(f: Form, d: seq<Byte>, at: nat, ob: Object<S>)
    requires Storable(ob) && HasAt(d, at, BodyImage(ModeOf(f), ob))
    ensures BodyPlaced(d, at, f, ob, at + |BodyImage(ModeOf(f), ob)|)
  {
    hide Joined, TableImage, IntImage, StringsAre, TableIs, ChildrenAre, NumberIs, WellTyped;
    var m, paths, es, cs := ModeOf(f), PathsOf(ob.deps), SavedOf(ob.vars), EnteredOf(ob);
    SavedTyped(ob.vars);
    var x, y, z := DepsImage(m, paths), TableImage(m, es), ChildrenImage(m, cs);
    HasBoth(d, at, x, y + z);
    HasBoth(d, at + |x|, y, z);
    var p, q := at + |x|, at + |x| + |y|;
    HasBoth(d, at, Word(m, |paths|), Joined(StringPrinter(m), paths));
    NumberPlaced(f, d, at, 5, |paths|, 4);
    StringsPlaced(f, d, at + WordSize(f), paths, StringPrinter(m));
    TablePlaced(f, d, p, es);
    HasBoth(d, q, Word(m, |cs|), Joined(ChildPrinter(m), cs));
    NumberPlaced(f, d, q, 5, |cs|, 4);
    ChildrenPlaced(f, d, q + WordSize(f), cs);
  }

  // An image is laid out so.
  lemma ImagePlaced<S>(f: Form, d: seq<Byte>, at: nat, ob: Object<S>)
    requires Storable(ob) && HasAt(d, at, ObjectImage(ModeOf(f), at, ob))
    ensures Placed(d, at, f, ob)
  {
    hide HeaderImage, BodyImage, VersionImage, HooksImage, HeaderPlaced, BodyPlaced, VersionIs, VersionSize;
    var m := ModeOf(f);
    var h, b, v := HeaderImage(m, at, ob), BodyImage(m, ob), VersionImage(m, ob.cls.name, ob.cls.ver);
    var data := DataImage(m, ob);
    HasBoth(d, at, h, b + data);
    HasBoth(d, at + |h|, b, data);
    var q := at + |h| + |b|;
    HasBoth(d, q, v, HooksImage(DataMode(m, ob.flags), ob.cls.hooks, ob.parts));
    HeadPlaced(f, d, at, ob, q);
    TablesPlaced(f, d, at + |h|, ob);
    VersionPlaced(f, d, q, ob.cls.name, ob.cls.ver);
  }

  // The dependencies and children that are persistent are saved, in order, ...
  lemma {:induction false} PathsJoin(a: seq<Dep>, x: Dep, b: seq<Dep>)
    ensures PathsOf([]) == []
    ensures PathsOf(a + [x] + b) == PathsOf(a) + (if x.persistent then [x.path] else []) + PathsOf(b)
  {
    if a == [] {
      assert a + [x] + b == [x] + b && ([x] + b)[1..] == b;
    } else {
      assert (a + [x] + b)[0] == a[0] && (a + [x] + b)[1..] == a[1..] + [x] + b;
      PathsJoin(a[1..], x, b);
    }
  }

  lemma {:induction false} EnteredJoin(a: seq<Child>, x: Child, b: seq<Child>)
    ensures Entered([]) == [] && Entered(a + [x] + b) == Entered(a) + (if x.persistent then [x] else []) + Entered(b)
  {
    if a == [] {
      assert a + [x] + b == [x] + b && ([x] + b)[1..] == b;
    } else {
      assert (a + [x] + b)[0] == a[0] && (a + [x] + b)[1..] == a[1..] + [x] + b;
      EnteredJoin(a[1..], x, b);
    }
  }

  // ... and the variables of a type that is saved, if they can be evaluated.
  lemma {:induction false} SavedJoin(a: seq<Variable>, x: Variable, b: seq<Variable>)
    ensures SavedOf([]) == []
    ensures SavedOf(a + [x] + b) ==
      SavedOf(a) + (if x.evaluates && x.entry.kind != Transient then [x.entry] else []) + SavedOf(b)
  {
    if a == [] {
      assert a + [x] + b == [x] + b && ([x] + b)[1..] == b;
    } else {
      assert (a + [x] + b)[0] == a[0] && (a + [x] + b)[1..] == a[1..] + [x] + b;
      SavedJoin(a[1..], x, b);
    }
  }

  // ---- Saving ----

  // A count or offset written first as zero and put right later
  lemma Patched(a: seq<Byte>, x: seq<Byte>, b: seq<Byte>, y: seq<Byte>)
    requires |x| == |y|
    ensures Over(a + (x + b), |a|, y) == a + (y + b)
  {
    var s := a + (x + b);
    assert s[..|a|] == a && s[|a| + |y|..] == b;
    assert a + y + b == a + (y + b);
  }

  method WriteEntry(ds: CoreSource, e: Entry)
    requires ds.AtEnd() && WellTyped(e) && e.kind != Transient
    modifies ds`data, ds`size, ds`offs, ds`wrLast, ds`wrTotal
    ensures ds.AtEnd() && ds.data == old(ds.data) + EntryImage(ds.Settings(), e)
  {
    hide StringImage, IntImage, Word, DataImage;
    ghost var start := ds.data;
    ds.WriteString(e.name);
    assert Pow256(4) == 0x1_0000_0000;
    ds.WriteInt(UINT32, CodeWord(e.kind), 4);
    Lists.Assoc(start, StringImage(ds.Settings(), e.name), Word(ds.Settings(), CodeWord(e.kind)));
    ghost var key := KeyImage(ds.Settings(), e.name, e.kind);
    assert ds.data == start + key;
    if Numeric(e.kind) {
      ds.WriteInt(TypeCode(e.kind), e.value.v, Width(e.kind));
    } else if e.kind == Text {
      ds.WriteString(e.value.s);
    }
    Lists.Assoc(start, key, Variables.DataImage(ds.Settings(), e));
  }

  // AG_ObjectSaveVariables
  method SaveVariables(ds: CoreSource, xs: seq<Variable>)
    requires ds.AtEnd() && |xs| < 0x1_0000_0000 && forall x :: x in xs ==> WellTyped(x.entry)
    modifies ds`data, ds`size, ds`offs, ds`wrLast, ds`wrTotal
    ensures ds.AtEnd() && ds.data == old(ds.data) + TableImage(ds.Settings(), SavedOf(xs))
  {
    ghost var m, start, all := ds.Settings(), ds.data, SavedOf(xs);
    ds.WriteVersion(PROP_TABLE, Version(2, 1));
    ghost var lead := ds.data;
    var countOffs := ds.offs;
    assert Pow256(4) == 0x1_0000_0000;
    ds.WriteInt(UINT32, 0, 4);
    var count := WriteEntries(ds, xs);
    Lists.Assoc(lead, Word(m, 0), EntriesImage(m, all));
    Patched(lead, Word(m, 0), EntriesImage(m, all), Word(m, |all|));
    ds.WriteUint32At(count, countOffs);
    ghost var v := VersionImage(m, PROP_TABLE, Version(2, 1));
    Lists.Assoc(start, v, Word(m, |all|) + EntriesImage(m, all));
    Lists.Assoc(v, Word(m, |all|), EntriesImage(m, all));
  }

  method WriteEntries(ds: CoreSource, xs: seq<Variable>) returns (count: nat)
    requires ds.AtEnd() && forall x :: x in xs ==> WellTyped(x.entry)
    modifies ds`data, ds`size, ds`offs, ds`wrLast, ds`wrTotal
    ensures ds.AtEnd() && count == |SavedOf(xs)|
    ensures ds.data == old(ds.data) + EntriesImage(ds.Settings(), SavedOf(xs))
  {
    ghost var m, start := ds.Settings(), ds.data;
    var i := 0;
    count := 0;
    assert xs[0..] == xs;
    while i < |xs|
      invariant i <= |xs| && ds.AtEnd() && count + |SavedOf(xs[i..])| == |SavedOf(xs)|
      invariant ds.data + EntriesImage(m, SavedOf(xs[i..])) == start + EntriesImage(m, SavedOf(xs))
    {
      assert xs[i..][1..] == xs[i + 1..];
      var n := WriteVariable(ds, xs[i], SavedOf(xs[i + 1..]));
      count := count + n;
      i := i + 1;
    }
    assert xs[i..] == [] && ds.data + [] == ds.data;
  }

  // One variable, with the image of those to come behind it
  method WriteVariable(ds: CoreSource, x: Variable, ghost rest: seq<Entry>) returns (n: nat)
    requires ds.AtEnd() && WellTyped(x.entry)
    modifies ds`data, ds`size, ds`offs, ds`wrLast, ds`wrTotal
    ensures ds.AtEnd() && n == if Saved(x) then 1 else 0
    ensures ds.data + EntriesImage(ds.Settings(), rest)
      == old(ds.data) + EntriesImage(ds.Settings(), (if Saved(x) then [x.entry] else []) + rest)
  {
    n := 0;
    assert [] + rest == rest;
    if Saved(x) {
      ghost var was, m := ds.data, ds.Settings();
      WriteEntry(ds, x.entry);
      n := 1;
      OneMore(m, x.entry, rest);
      Lists.Assoc(was, EntryImage(m, x.entry), EntriesImage(m, rest));
    }
  }

  lemma OneMore(m: Mode, e: Entry, rest: seq<Entry>)
    ensures EntriesImage(m, [e] + rest) == EntryImage(m, e) + EntriesImage(m, rest)
  {
    assert ([e] + rest)[1..] == rest;
  }

  lemma JoinedMore<T>(image: T -> seq<Byte>, v: T, rest: seq<T>)
    ensures Joined(image, [v] + rest) == image(v) + Joined(image, rest)
  {
    assert ([v] + rest)[1..] == rest;
  }

  method WriteDep(ds: CoreSource, dep: Dep, ghost rest: seq<Str>) returns (n: nat)
    requires ds.AtEnd() && |dep.path| < 0x1_0000_0000
    modifies ds`data, ds`size, ds`offs, ds`wrLast, ds`wrTotal
    ensures ds.AtEnd() && n == if dep.persistent then 1 else 0
    ensures var image := StringPrinter(ds.Settings());
      ds.data + Joined(image, rest) == old(ds.data) + Joined(image, (if dep.persistent then [dep.path] else []) + rest)
  {
    n := 0;
    assert [] + rest == rest;
    if dep.persistent {
      ghost var was, image := ds.data, StringPrinter(ds.Settings());
      ds.WriteString(dep.path);
      n := 1;
      JoinedMore(image, dep.path, rest);
      Lists.Assoc(was, image(dep.path), Joined(image, rest));
    }
  }

  method WriteDeps(ds: CoreSource, deps: seq<Dep>) returns (count: nat)
    requires ds.AtEnd() && forall x :: x in deps ==> |x.path| < 0x1_0000_0000
    modifies ds`data, ds`size, ds`offs, ds`wrLast, ds`wrTotal
    ensures ds.AtEnd() && count == |PathsOf(deps)|
    ensures ds.data == old(ds.data) + Joined(StringPrinter(ds.Settings()), PathsOf(deps))
  {
    ghost var image, start := StringPrinter(ds.Settings()), ds.data;
    var i := 0;
    count := 0;
    assert deps[0..] == deps;
    while i < |deps|
      invariant i <= |deps| && ds.AtEnd() && count + |PathsOf(deps[i..])| == |PathsOf(deps)|
      invariant ds.data + Joined(image, PathsOf(deps[i..])) == start + Joined(image, PathsOf(deps))
    {
      assert deps[i..][1..] == deps[i + 1..];
      var n := WriteDep(ds, deps[i], PathsOf(deps[i + 1..]));
      count := count + n;
      i := i + 1;
    }
    assert deps[i..] == [] && ds.data + [] == ds.data;
  }

  // The dependency table
  method SaveDeps(ds: CoreSource, deps: seq<Dep>)
    requires ds.AtEnd() && |deps| < 0x1_0000_0000 && forall x :: x in deps ==> |x.path| < 0x1_0000_0000
    modifies ds`data, ds`size, ds`offs, ds`wrLast, ds`wrTotal
    ensures ds.AtEnd() && ds.data == old(ds.data) + DepsImage(ds.Settings(), PathsOf(deps))
  {
    ghost var m, start, paths := ds.Settings(), ds.data, PathsOf(deps);
    var countOffs := ds.offs;
    assert Pow256(4) == 0x1_0000_0000;
    ds.WriteInt(UINT32, 0, 4);
    var count := WriteDeps(ds, deps);
    Lists.Assoc(start, Word(m, 0), Joined(StringPrinter(m), paths));
    Patched(start, Word(m, 0), Joined(StringPrinter(m), paths), Word(m, |paths|));
    ds.WriteUint32At(count, countOffs);
  }

  method WriteChild(ds: CoreSource, c: Child, ghost rest: seq<Child>) returns (n: nat)
    requires ds.AtEnd() && |c.name| < 0x1_0000_0000 && |c.hier| < 0x1_0000_0000
    modifies ds`data, ds`size, ds`offs, ds`wrLast, ds`wrTotal
    ensures ds.AtEnd() && n == if c.persistent then 1 else 0
    ensures var image := ChildPrinter(ds.Settings());
      ds.data + Joined(image, rest) == old(ds.data) + Joined(image, (if c.persistent then [c] else []) + rest)
  {
    n := 0;
    assert [] + rest == rest;
    if c.persistent {
      ghost var was, m := ds.data, ds.Settings();
      ds.WriteString(c.name);
      ds.WriteString(c.hier);
      n := 1;
      Lists.Assoc(was, StringImage(m, c.name), StringImage(m, c.hier));
      JoinedMore(ChildPrinter(m), c, rest);
      Lists.Assoc(was, ChildPrinter(m)(c), Joined(ChildPrinter(m), rest));
    }
  }

  method WriteChildren(ds: CoreSource, cs: seq<Child>) returns (count: nat)
    requires ds.AtEnd() && forall c :: c in cs ==> |c.name| < 0x1_0000_0000 && |c.hier| < 0x1_0000_0000
    modifies ds`data, ds`size, ds`offs, ds`wrLast, ds`wrTotal
    ensures ds.AtEnd() && count == |Entered(cs)|
    ensures ds.data == old(ds.data) + Joined(ChildPrinter(ds.Settings()), Entered(cs))
  {
    ghost var image, start := ChildPrinter(ds.Settings()), ds.data;
    var i := 0;
    count := 0;
    assert cs[0..] == cs;
    while i < |cs|
      invariant i <= |cs| && ds.AtEnd() && count + |Entered(cs[i..])| == |Entered(cs)|
      invariant ds.data + Joined(image, Entered(cs[i..])) == start + Joined(image, Entered(cs))
    {
      assert cs[i..][1..] == cs[i + 1..];
      var n := WriteChild(ds, cs[i], Entered(cs[i + 1..]));
      count := count + n;
      i := i + 1;
    }
    assert cs[i..] == [] && ds.data + [] == ds.data;
  }

  // The table of children: empty unless they are to be saved along
  method SaveChildren<S>(ds: CoreSource, ob: Object<S>)
    requires ds.AtEnd() && |ob.children| < 0x1_0000_0000
    requires forall c :: c in ob.children ==> |c.name| < 0x1_0000_0000 && |c.hier| < 0x1_0000_0000
    modifies ds`data, ds`size, ds`offs, ds`wrLast, ds`wrTotal
    ensures ds.AtEnd() && ds.data == old(ds.data) + ChildrenImage(ds.Settings(), EnteredOf(ob))
  {
    ghost var m, start, image := ds.Settings(), ds.data, ChildPrinter(ds.Settings());
    assert Pow256(4) == 0x1_0000_0000;
    var countOffs := ds.offs;
    ds.WriteInt(UINT32, 0, 4);
    if ob.flags[CHLD_AUTOSAVE] {
      ghost var cs := Entered(ob.children);
      var count := WriteChildren(ds, ob.children);
      Lists.Assoc(start, Word(m, 0), Joined(image, cs));
      Patched(start, Word(m, 0), Joined(image, cs), Word(m, |cs|));
      ds.WriteUint32At(count, countOffs);
    } else {
      assert Word(m, 0) + [] == Word(m, 0);
    }
  }

  // The save functions of the classes, in the order of the hierarchy
  method SaveParts<S>(ds: CoreSource, hooks: seq<Hook<S>>, parts: seq<S>)
    requires ds.AtEnd() && |hooks| == |parts|
    modifies ds`data, ds`size, ds`offs, ds`wrLast, ds`wrTotal
    ensures ds.AtEnd() && ds.data == old(ds.data) + HooksImage(ds.Settings(), hooks, parts)
  {
    ghost var m, start := ds.Settings(), ds.data;
    var i := 0;
    assert hooks[0..] == hooks && parts[0..] == parts;
    while i < |hooks|
      invariant i <= |hooks| && ds.AtEnd()
      invariant ds.data + HooksImage(m, hooks[i..], parts[i..]) == start + HooksImage(m, hooks, parts)
    {
      assert hooks[i..][1..] == hooks[i + 1..] && parts[i..][1..] == parts[i + 1..];
      ghost var was, rest := ds.data, HooksImage(m, hooks[i + 1..], parts[i + 1..]);
      if hooks[i].save.Some? {
        ds.Write(hooks[i].save.value(parts[i], ds.Settings()));
        Lists.Assoc(was, hooks[i].save.value(parts[i], m), rest);
      } else {
        assert [] + rest == rest;
      }
      i := i + 1;
    }
    assert hooks[i..] == [] && ds.data + [] == ds.data;
  }

  // What limits an object to save: counts and lengths are 32-bit numbers.
  ghost predicate Storable<S>(ob: Object<S>) {
    && |ob.deps| < 0x1_0000_0000 && |ob.vars| < 0x1_0000_0000 && |ob.children| < 0x1_0000_0000
    && |ob.cls.hier| < 0x1_0000_0000 && |ob.cls.libs| < 0x1_0000_0000 && |ob.cls.hooks| == |ob.parts|
    && ob.cls.ver.major < 0x1_0000_0000 && ob.cls.ver.minor < 0x1_0000_0000
    && (forall x :: x in ob.deps ==> |x.path| < 0x1_0000_0000)
    && (forall x :: x in ob.vars ==> WellTyped(x.entry))
    && (forall c :: c in ob.children ==> |c.name| < 0x1_0000_0000 && |c.hier| < 0x1_0000_0000)
  }

  method SaveLead<S>(ds: CoreSource, cls: Class<S>)
    requires ds.AtEnd() && |cls.hier| < 0x1_0000_0000 && |cls.libs| < 0x1_0000_0000
    modifies ds`data, ds`size, ds`offs, ds`wrLast, ds`wrTotal
    ensures ds.AtEnd() && ds.data == old(ds.data) + LeadImage(ds.Settings(), cls)
  {
    ghost var m, start := ds.Settings(), ds.data;
    ds.WriteVersion(OBJECT_NAME, Version(7, 2));
    ghost var v, h, l := VersionImage(m, OBJECT_NAME, Version(7, 2)), StringImage(m, cls.hier),
      StringImage(m, cls.libs);
    ds.WriteString(cls.hier);
    ds.WriteString(cls.libs);
    Lists.Assoc(start + v, h, l);
    Lists.Assoc(start, v, h + l);
  }

  method SaveBody<S>(ds: CoreSource, ob: Object<S>)
    requires ds.AtEnd() && Storable(ob)
    modifies ds`data, ds`size, ds`offs, ds`wrLast, ds`wrTotal
    ensures ds.AtEnd() && ds.data == old(ds.data) + BodyImage(ds.Settings(), ob)
  {
    ghost var m, start := ds.Settings(), ds.data;
    SaveDeps(ds, ob.deps);
    SaveVariables(ds, ob.vars);
    SaveChildren(ds, ob);
    ghost var x, y, z := DepsImage(m, PathsOf(ob.deps)), TableImage(m, SavedOf(ob.vars)),
      ChildrenImage(m, EnteredOf(ob));
    Lists.Assoc(start + x, y, z);
    Lists.Assoc(start, x, y + z);
  }

  // The header, with the offset of the dataset not yet known
  method SaveHead<S>(ds: CoreSource, ob: Object<S>) returns (dataOffs: nat)
    requires ds.AtEnd() && Storable(ob)
    modifies ds`data, ds`size, ds`offs, ds`wrLast, ds`wrTotal
    ensures ds.AtEnd() && dataOffs == |old(ds.data)| + |LeadImage(ds.Settings(), ob.cls)|
    ensures ds.data == old(ds.data) +
      (LeadImage(ds.Settings(), ob.cls) + (Word(ds.Settings(), 0) + Word(ds.Settings(), SavedWord(ob))))
  {
    ghost var m, start, l := ds.Settings(), ds.data, LeadImage(ds.Settings(), ob.cls);
    SaveLead(ds, ob.cls);
    dataOffs := ds.offs;
    assert Pow256(4) == 0x1_0000_0000;
    ds.WriteInt(UINT32, 0, 4);
    ds.WriteInt(UINT32, SavedWord(ob), 4);
    Lists.Assoc(start + l, Word(m, 0), Word(m, SavedWord(ob)));
    Lists.Assoc(start, l, Word(m, 0) + Word(m, SavedWord(ob)));
  }

  // Everything up to the dataset, with its offset put in
  method SaveFront<S>(ds: CoreSource, ob: Object<S>)
    requires ds.AtEnd() && Storable(ob)
    modifies ds`data, ds`size, ds`offs, ds`wrLast, ds`wrTotal
    ensures ds.AtEnd()
    ensures ds.data == old(ds.data) + (HeaderImage(ds.Settings(), old(ds.offs), ob) + BodyImage(ds.Settings(), ob))
  {
    hide LeadImage, BodyImage, HeaderImage, DataOffset;
    ghost var m, start, l, b := ds.Settings(), ds.data, LeadImage(ds.Settings(), ob.cls), BodyImage(ds.Settings(), ob);
    ghost var f := Word(m, SavedWord(ob));
    var dataOffs := SaveHead(ds, ob);
    SaveBody(ds, ob);
    assert ds.offs == |start| + |l| + 2 * (TagSize(m) + 4) + |b|;
    OffsetIs(m, |start|, ob, ds.offs);
    HeaderIs(m, |start|, ob);
    ghost var w := Word(m, DataOffset(m, |start|, ob));
    PatchWord(ds, ds.offs % 0x1_0000_0000, dataOffs, start, l, Word(m, 0), f, b, w);
    assert ds.Settings() == m && HeaderImage(m, |start|, ob) == l + (w + f);
  }

  // The word x ahead of f and b, written over
  method PatchWord(ds: CoreSource, v: nat, pos: nat, ghost s: seq<Byte>, ghost l: seq<Byte>, ghost x: seq<Byte>,
      ghost f: seq<Byte>, ghost b: seq<Byte>, ghost w: seq<Byte>)
    requires ds.AtEnd() && v < 0x1_0000_0000 && w == Word(ds.Settings(), v) && pos == |s| + |l|
    requires |x| == TagSize(ds.Settings()) + 4
    requires ds.data == (s + (l + (x + f))) + b
    modifies ds`data, ds`size, ds`wrLast, ds`wrTotal
    ensures ds.AtEnd() && ds.data == s + ((l + (w + f)) + b)
  {
    PatchedFront(s, l, x, f, b, w);
    ds.WriteUint32At(v, pos);
  }

  lemma OffsetIs<S>(m: Mode, base: nat, ob: Object<S>, n: nat)
    requires n == base + |LeadImage(m, ob.cls)| + 2 * (TagSize(m) + 4) + |BodyImage(m, ob)|
    ensures DataOffset(m, base, ob) == n % 0x1_0000_0000
  {
    hide LeadImage, BodyImage;
    assert DataOffset(m, base, ob) == Offset(m, base, |LeadImage(m, ob.cls)|, |BodyImage(m, ob)|);
  }

  lemma HeaderSize(l: seq<Byte>, w: seq<Byte>, f: seq<Byte>, n: nat)
    requires |w| == n && |f| == n
    ensures |l + (w + f)| == |l| + 2 * n
  {
  }

  lemma HeaderIs<S>(m: Mode, base: nat, ob: Object<S>)
    ensures HeaderImage(m, base, ob) ==
      LeadImage(m, ob.cls) + (Word(m, DataOffset(m, base, ob)) + Word(m, SavedWord(ob)))
  {
  }

  lemma PatchedFront(s: seq<Byte>, l: seq<Byte>, x: seq<Byte>, f: seq<Byte>, b: seq<Byte>, w: seq<Byte>)
    requires |x| == |w|
    ensures Over((s + (l + (x + f))) + b, |s| + |l|, w) == s + ((l + (w + f)) + b)
  {
    Lists.Assoc(s, l, x + f);
    Lists.Assoc(s + l, x + f, b);
    Lists.Assoc(x, f, b);
    Patched(s + l, x, f + b, w);
    Lists.Assoc(w, f, b);
    Lists.Assoc(s, l, w + (f + b));
    Lists.Assoc(l, w + f, b);
  }

  // AG_ObjectSerialize
  method Serialize<S>(ds: CoreSource, ob: Object<S>)
    requires ds.AtEnd() && Storable(ob)
    modifies ds`data, ds`size, ds`offs, ds`wrLast, ds`wrTotal, ds`debug
    ensures ds.AtEnd() && ds.data == old(ds.data) + ObjectImage(old(ds.Settings()), old(ds.offs), ob)
    ensures ds.debug == (old(ds.debug) && !ob.flags[DEBUG_DATA])
    ensures Placed(ds.data, old(ds.offs), Form(old(ds.order), old(ds.debug)), ob)
  {
    hide Placed, ObjectImage, HeaderImage, BodyImage, DataImage;
    ghost var m, start, base, f := ds.Settings(), ds.data, ds.offs, Form(ds.order, ds.debug);
    SaveFront(ds, ob);
    SaveData(ds, ob);
    Grouped(start, HeaderImage(m, base, ob), BodyImage(m, ob), DataImage(m, ob));
    ImageIs(m, base, ob);
    Behind(ds.data, start, ObjectImage(m, base, ob));
    ImagePlaced(f, ds.data, base, ob);
  }

  lemma ImageIs<S>(m: Mode, base: nat, ob: Object<S>)
    requires |ob.cls.hooks| == |ob.parts|
    ensures ObjectImage(m, base, ob) == HeaderImage(m, base, ob) + (BodyImage(m, ob) + DataImage(m, ob))
  {
  }

  lemma Grouped(s: seq<Byte>, h: seq<Byte>, b: seq<Byte>, d: seq<Byte>)
    ensures (s + (h + b)) + d == s + (h + (b + d))
  {
    Lists.Assoc(s, h + b, d);
    Lists.Assoc(h, b, d);
  }

  method SaveData<S>(ds: CoreSource, ob: Object<S>)
    requires ds.AtEnd() && Storable(ob)
    modifies ds`data, ds`size, ds`offs, ds`wrLast, ds`wrTotal, ds`debug
    ensures ds.AtEnd() && ds.data == old(ds.data) + DataImage(old(ds.Settings()), ob)
    ensures ds.debug == (old(ds.debug) && !ob.flags[DEBUG_DATA])
  {
    ghost var m, start := ds.Settings(), ds.data;
    ds.WriteVersion(ob.cls.name, ob.cls.ver);
    if ob.flags[DEBUG_DATA] {
      ds.debug := true;
    }
    SaveParts(ds, ob.cls.hooks, ob.parts);
    Lists.Assoc(start, VersionImage(m, ob.cls.name, ob.cls.ver),
      HooksImage(DataMode(m, ob.flags), ob.cls.hooks, ob.parts));
    if ob.flags[DEBUG_DATA] {
      ds.debug := false;
    }
  }

  // ---- Decoding ----

  function WordReader(m: Mode, d: seq<Byte>): nat -> Parsed<nat> {
    (p: nat) => IntAt(m, d, p, UINT32, 4)
  }

  function CopyReader(m: Mode, d: seq<Byte>, size: nat): nat -> Parsed<(Str, nat)>
    requires size > 0
  {
    (p: nat) => CopyAt(m, d, p, size)
  }

  function StringReader(m: Mode, d: seq<Byte>): nat -> Parsed<Str> {
    (p: nat) => StringAt(m, d, p, 32767)
  }

  function VersionReader(m: Mode, d: seq<Byte>, name: Str, major: nat): nat -> Parsed<Version> {
    (p: nat) => VersionAt(m, d, p, name, major)
  }

  // The class, which archives have from version 7.2 on
  function ClassReader(m: Mode, d: seq<Byte>): Version -> (nat -> Parsed<(Str, Str)>) {
    (ver: Version) => ClassOf(m, d, ver)
  }

  function ClassOf(m: Mode, d: seq<Byte>, ver: Version): nat -> Parsed<(Str, Str)> {
    (p: nat) => if ver.minor < 2 then Just(([], []), p)
                else WithoutLengths(Then(CopyReader(m, d, 256), CopyReader(m, d, 128))(p))
  }

  function WithoutLengths(x: Parsed<((Str, nat), (Str, nat))>): Parsed<(Str, Str)> {
    match x
    case Nothing => Nothing
    case Just(v, p) => Just((v.0.0, v.1.0), p)
  }

  type Header = ((Version, (Str, Str)), (nat, nat))

  // AG_ObjectReadHeader: version and class, dataset offset and flags
  function HeaderReader(m: Mode, d: seq<Byte>): nat -> Parsed<Header> {
    Then(Depending(VersionReader(m, d, OBJECT_NAME, 7), ClassReader(m, d)), Then(WordReader(m, d), WordReader(m, d)))
  }

  // ReadDependencyTable
  function PathsReader(m: Mode, d: seq<Byte>): nat -> (nat -> Parsed<seq<Str>>) {
    (count: nat) => CountedReader(m, d, count)
  }

  function CountedReader(m: Mode, d: seq<Byte>, count: nat): nat -> Parsed<seq<Str>> {
    (p: nat) => Many(StringReader(m, d), p, count)
  }

  function DepsReader(m: Mode, d: seq<Byte>): nat -> Parsed<(nat, seq<Str>)> {
    Depending(WordReader(m, d), PathsReader(m, d))
  }

  function TableReader(m: Mode, d: seq<Byte>): nat -> Parsed<seq<Entry>> {
    (p: nat) => TableAt(m, d, p)
  }

  // The count of children, expected to be zero
  function NoChildren(m: Mode, d: seq<Byte>): nat -> Parsed<nat> {
    (p: nat) => match IntAt(m, d, p, UINT32, 4) case Nothing => Nothing
      case Just(n, q) => if n != 0 then Nothing else Just(n, q)
  }

  type Body = ((nat, seq<Str>), (seq<Entry>, nat))

  function BodyReader(m: Mode, d: seq<Byte>): nat -> Parsed<Body> {
    Then(DepsReader(m, d), Then(TableReader(m, d), NoChildren(m, d)))
  }

  // The load functions; a class without one leaves its part as it was.
  function PartsAt<S>(m: Mode, d: seq<Byte>, at: nat, hooks: seq<Hook<S>>, was: seq<S>): Parsed<seq<S>>
    requires |hooks| == |was|
    decreases |hooks|
  {
    if hooks == [] then Just([], at)
    else if hooks[0].load.None? then Prefixed([was[0]], PartsAt(m, d, at, hooks[1..], was[1..]))
    else match hooks[0].load.value(m, d, at)
      case Nothing => Nothing
      case Just(part, p) => Prefixed([part], PartsAt(m, d, p, hooks[1..], was[1..]))
  }

  function PartsReader<S>(m: Mode, d: seq<Byte>, hooks: seq<Hook<S>>, was: seq<S>): nat -> Parsed<seq<S>>
    requires |hooks| == |was|
  {
    (p: nat) => PartsAt(m, d, p, hooks, was)
  }

  // The dataset, whose class functions run in a mode of their own
  function DataReader<S>(m: Mode, dm: Mode, d: seq<Byte>, cls: Class<S>, was: seq<S>): nat -> Parsed<(Version, seq<S>)>
    requires |cls.hooks| == |was|
  {
    Then(VersionReader(m, d, cls.name, cls.ver.major), PartsReader(dm, d, cls.hooks, was))
  }

  // The flags of an object into which saved ones are loaded
  function LoadedFlags(was: Flagword, saved: nat): Flagword {
    Overlaid(was, SAVED_FLAGS, saved)
  }

  type Contents<S> = (Header, (Body, (Version, seq<S>)))

  function BehindHeader<S>(m: Mode, d: seq<Byte>, cls: Class<S>, flags: Flagword, was: seq<S>)
    : Header -> (nat -> Parsed<(Body, (Version, seq<S>))>)
    requires |cls.hooks| == |was|
  {
    (h: Header) => Then(BodyReader(m, d), DataReader(m, DataMode(m, LoadedFlags(flags, h.1.1)), d, cls, was))
  }

  function ObjectReader<S>(m: Mode, d: seq<Byte>, cls: Class<S>, flags: Flagword,
      was: seq<S>): nat -> Parsed<Contents<S>>
    requires |cls.hooks| == |was|
  {
    Depending(HeaderReader(m, d), BehindHeader(m, d, cls, flags, was))
  }

  // ---- What is saved loads back ----

  lemma WordReads(m: Mode, d: seq<Byte>, v: nat)
    requires v < 0x1_0000_0000
    ensures Reads(WordReader(m, d), d, Word(m, v), v)
  {
    forall p: nat | HasAt(d, p, Word(m, v))
      ensures WordReader(m, d)(p) == Just(v, p + |Word(m, v)|)
    {
      Uint32Back(m, d, p, v);
    }
  }

  lemma CopyReads(m: Mode, d: seq<Byte>, s: Str, size: nat)
    requires |s| < size <= 0x1_0000_0000
    ensures Reads(CopyReader(m, d, size), d, StringImage(m, s), (s, |s|))
  {
    forall p: nat | HasAt(d, p, StringImage(m, s))
      ensures CopyReader(m, d, size)(p) == Just((s, |s|), p + |StringImage(m, s)|)
    {
      CopyBack(m, d, p, s, size);
    }
  }

  lemma VersionReads(m: Mode, d: seq<Byte>, name: Str, ver: Version)
    requires CString(name) && |name| < NAME_FIELD && ver.major < 0x1_0000_0000 && ver.minor < 0x1_0000_0000
    ensures Reads(VersionReader(m, d, name, ver.major), d, VersionImage(m, name, ver), ver)
  {
    forall p: nat | HasAt(d, p, VersionImage(m, name, ver))
      ensures VersionReader(m, d, name, ver.major)(p) == Just(ver, p + |VersionImage(m, name, ver)|)
    {
      VersionBack(m, d, p, name, ver);
    }
  }

  lemma ClassReads<S>(m: Mode, d: seq<Byte>, cls: Class<S>)
    requires |cls.hier| < 256 && |cls.libs| < 128
    ensures Reads(ClassReader(m, d)(Version(7, 2)), d, StringImage(m, cls.hier) + StringImage(m, cls.libs),
      (cls.hier, cls.libs))
  {
    var h, l := StringImage(m, cls.hier), StringImage(m, cls.libs);
    CopyReads(m, d, cls.hier, 256);
    CopyReads(m, d, cls.libs, 128);
    ThenReads(CopyReader(m, d, 256), CopyReader(m, d, 128), d, h, l, (cls.hier, |cls.hier|), (cls.libs, |cls.libs|));
  }

  function HeaderOf<S>(m: Mode, base: nat, ob: Object<S>): Header {
    ((Version(7, 2), (ob.cls.hier, ob.cls.libs)), (DataOffset(m, base, ob), SavedWord(ob)))
  }

  lemma HeaderReads<S>(m: Mode, d: seq<Byte>, base: nat, ob: Object<S>)
    requires |ob.cls.hier| < 256 && |ob.cls.libs| < 128
    ensures Reads(HeaderReader(m, d), d, HeaderImage(m, base, ob), HeaderOf(m, base, ob))
  {
    var w, f := DataOffset(m, base, ob), SavedWord(ob);
    var ver, class_ := Version(7, 2), (ob.cls.hier, ob.cls.libs);
    VersionReads(m, d, OBJECT_NAME, ver);
    ClassReads(m, d, ob.cls);
    DependingReads(VersionReader(m, d, OBJECT_NAME, 7), ClassReader(m, d), d, VersionImage(m, OBJECT_NAME, ver),
      StringImage(m, ob.cls.hier) + StringImage(m, ob.cls.libs), ver, class_);
    WordReads(m, d, w);
    WordReads(m, d, f);
    ThenReads(WordReader(m, d), WordReader(m, d), d, Word(m, w), Word(m, f), w, f);
    ThenReads(Depending(VersionReader(m, d, OBJECT_NAME, 7), ClassReader(m, d)),
      Then(WordReader(m, d), WordReader(m, d)),
      d, LeadImage(m, ob.cls), Word(m, w) + Word(m, f), (ver, class_), (w, f));
  }

  // An archive of a minor version before 2 has no class in its header.
  lemma OldHeaderReads(m: Mode, d: seq<Byte>, minor: nat, offset: nat, flags: nat)
    requires minor < 2 && offset < 0x1_0000_0000 && flags < 0x1_0000_0000
    ensures var v := Version(7, minor);
      Reads(HeaderReader(m, d), d, VersionImage(m, OBJECT_NAME, v) + (Word(m, offset) + Word(m, flags)),
        ((v, ([], [])), (offset, flags)))
  {
    var v, image := Version(7, minor), VersionImage(m, OBJECT_NAME, Version(7, minor));
    VersionReads(m, d, OBJECT_NAME, v);
    assert Reads(ClassReader(m, d)(v), d, [], ([], []));
    DependingReads(VersionReader(m, d, OBJECT_NAME, 7), ClassReader(m, d), d, image, [], v, ([], []));
    assert image + [] == image;
    WordReads(m, d, offset);
    WordReads(m, d, flags);
    ThenReads(WordReader(m, d), WordReader(m, d), d, Word(m, offset), Word(m, flags), offset, flags);
    ThenReads(Depending(VersionReader(m, d, OBJECT_NAME, 7), ClassReader(m, d)),
      Then(WordReader(m, d), WordReader(m, d)),
      d, image, Word(m, offset) + Word(m, flags), (v, ([], [])), (offset, flags));
  }

  lemma PathReads(m: Mode, d: seq<Byte>, s: Str)
    requires !m.debug && |s| <= 32767
    ensures Reads(StringReader(m, d), d, StringPrinter(m)(s), s)
  {
    forall p: nat | HasAt(d, p, StringImage(m, s))
      ensures StringReader(m, d)(p) == Just(s, p + |StringImage(m, s)|)
    {
      StringBack(m, d, p, s, 32767);
    }
  }

  lemma PathsBack(m: Mode, d: seq<Byte>, at: nat, paths: seq<Str>)
    requires forall s :: s in paths ==> !m.debug && |s| <= 32767
    requires HasAt(d, at, Joined(StringPrinter(m), paths))
    ensures Many(StringReader(m, d), at, |paths|) == Just(paths, at + |Joined(StringPrinter(m), paths)|)
  {
    forall s | s in paths
      ensures Reads(StringReader(m, d), d, StringPrinter(m)(s), s)
    {
      PathReads(m, d, s);
    }
    ManyBack(StringReader(m, d), StringPrinter(m), d, at, paths);
  }

  lemma PathsRead(m: Mode, d: seq<Byte>, paths: seq<Str>)
    requires forall s :: s in paths ==> !m.debug && |s| <= 32767
    ensures Reads(CountedReader(m, d, |paths|), d, Joined(StringPrinter(m), paths), paths)
  {
    forall p: nat | HasAt(d, p, Joined(StringPrinter(m), paths))
      ensures CountedReader(m, d, |paths|)(p) == Just(paths, p + |Joined(StringPrinter(m), paths)|)
    {
      PathsBack(m, d, p, paths);
    }
  }

  lemma DepsRead(m: Mode, d: seq<Byte>, paths: seq<Str>)
    requires |paths| < 0x1_0000_0000 && forall s :: s in paths ==> !m.debug && |s| <= 32767
    ensures Reads(DepsReader(m, d), d, DepsImage(m, paths), (|paths|, paths))
  {
    WordReads(m, d, |paths|);
    PathsRead(m, d, paths);
    var n: nat := |paths|;
    DependingReads<nat, seq<Str>>(WordReader(m, d), PathsReader(m, d), d, Word(m, n), Joined(StringPrinter(m), paths),
      n, paths);
  }

  // In debug mode paths are not read.
  lemma DepsFail(m: Mode, d: seq<Byte>, paths: seq<Str>)
    requires m.debug && paths != [] && |paths| < 0x1_0000_0000 && forall s :: s in paths ==> |s| <= 32767
    ensures Fails(DepsReader(m, d), d, DepsImage(m, paths))
  {
    WordReads(m, d, |paths|);
    var n: nat, item, image := |paths|, StringReader(m, d), StringPrinter(m);
    forall s | s in paths
      ensures Fails(item, d, image(s))
    {
      forall p: nat | HasAt(d, p, StringImage(m, s))
        ensures item(p) == Nothing
      {
        StringBack(m, d, p, s, 32767);
      }
    }
    forall p: nat | HasAt(d, p, Joined(image, paths))
      ensures CountedReader(m, d, n)(p) == Nothing
    {
      ManyFails(item, image, d, p, paths, paths[0]);
    }
    DependingFails<nat, seq<Str>>(WordReader(m, d), PathsReader(m, d), d, Word(m, n), Joined(image, paths), n);
  }

  lemma TableFailsAll(m: Mode, d: seq<Byte>, es: seq<Entry>, bad: Entry)
    requires |es| < 0x1_0000_0000 && forall e :: e in es ==> Loadable(m.(debug := false), e) && e.kind != ConstText
    requires m.debug && bad in es && bad.kind == Text
    ensures Fails(TableReader(m, d), d, TableImage(m, es))
  {
    forall p: nat | HasAt(d, p, TableImage(m, es))
      ensures TableReader(m, d)(p) == Nothing
    {
      TableFails(m, d, p, es, bad);
    }
  }

  // An object with dependencies or strings, whose tables are written in debug mode
  lemma BodyFails<S>(m: Mode, d: seq<Byte>, ob: Object<S>)
    requires m.debug && Restorable(m.(debug := false), ob) && !Restorable(m, ob)
    ensures Fails(BodyReader(m, d), d, BodyImage(m, ob))
  {
    hide DepsReader, TableReader, NoChildren, DepsImage, TableImage, ChildrenImage;
    var deps, es := PathsOf(ob.deps), SavedOf(ob.vars);
    var x, y, z := DepsImage(m, deps), TableImage(m, es), ChildrenImage(m, EnteredOf(ob));
    var rest := Then(TableReader(m, d), NoChildren(m, d));
    if deps != [] {
      DepsFail(m, d, deps);
      ThenFails<(nat, seq<Str>), (seq<Entry>, nat)>(DepsReader(m, d), rest, d, x, y + z, (0, []));
    } else {
      var bad :| bad in es && bad.kind == Text;
      DepsRead(m, d, deps);
      TableFailsAll(m, d, es, bad);
      ThenFails<seq<Entry>, nat>(TableReader(m, d), NoChildren(m, d), d, y, z, []);
      ThenFails<(nat, seq<Str>), (seq<Entry>, nat)>(DepsReader(m, d), rest, d, x, y + z, (|deps|, deps));
    }
  }

  lemma TableReads(m: Mode, d: seq<Byte>, es: seq<Entry>)
    requires |es| < 0x1_0000_0000 && forall e :: e in es ==> Loadable(m, e) && e.kind != ConstText
    ensures Reads(TableReader(m, d), d, TableImage(m, es), es)
  {
    forall p: nat | HasAt(d, p, TableImage(m, es))
      ensures TableReader(m, d)(p) == Just(es, p + |TableImage(m, es)|)
    {
      TableBack(m, d, p, es);
    }
  }

  lemma ChildrenRead(m: Mode, d: seq<Byte>, cs: seq<Child>)
    requires |cs| < 0x1_0000_0000
    ensures if cs == [] then Reads(NoChildren(m, d), d, ChildrenImage(m, cs), 0)
      else Fails(NoChildren(m, d), d, ChildrenImage(m, cs))
  {
    forall p: nat | HasAt(d, p, ChildrenImage(m, cs))
      ensures NoChildren(m, d)(p) == if cs == [] then Just(0, p + |ChildrenImage(m, cs)|) else Nothing
    {
      HasBoth(d, p, Word(m, |cs|), Joined(ChildPrinter(m), cs));
      Uint32Back(m, d, p, |cs|);
    }
  }

  function BodyOf<S>(ob: Object<S>): Body {
    ((|PathsOf(ob.deps)|, PathsOf(ob.deps)), (SavedOf(ob.vars), 0))
  }

  // The tables read back if no children were entered, and do not if there were.
  lemma BodyReads<S>(m: Mode, d: seq<Byte>, ob: Object<S>)
    requires Restorable(m, ob)
    ensures if EnteredOf(ob) == [] then Reads(BodyReader(m, d), d, BodyImage(m, ob), BodyOf(ob))
            else Fails(BodyReader(m, d), d, BodyImage(m, ob))
  {
    var deps, es, cs := PathsOf(ob.deps), SavedOf(ob.vars), EnteredOf(ob);
    var x, y, z := DepsImage(m, deps), TableImage(m, es), ChildrenImage(m, cs);
    DepsRead(m, d, deps);
    TableReads(m, d, es);
    ChildrenRead(m, d, cs);
    TripleReads<(nat, seq<Str>), seq<Entry>, nat>(DepsReader(m, d), TableReader(m, d), NoChildren(m, d), d, x, y, z,
      (|deps|, deps), es, 0, cs == []);
  }

  // A class function that loads what the other has saved
  ghost predicate Inverse<S(!new)>(h: Hook<S>) {
    && h.save.Some? == h.load.Some?
    && (h.save.Some? ==>
      forall part: S, m: Mode, d: seq<Byte>, at: nat {:trigger HasAt(d, at, h.save.value(part, m))} ::
         HasAt(d, at, h.save.value(part, m)) ==> h.load.value(m, d, at) == Just(part, at + |h.save.value(part, m)|))
  }

  // Of each class with functions its part comes back; of others there is what was before.
  function Restored<S>(hooks: seq<Hook<S>>, parts: seq<S>, was: seq<S>): (r: seq<S>)
    requires |hooks| == |parts| == |was|
    ensures |r| == |hooks|
  {
    if hooks == [] then []
    else [if hooks[0].load.Some? then parts[0] else was[0]] + Restored(hooks[1..], parts[1..], was[1..])
  }

  lemma {:induction false} PartsBack<S(!new)>(m: Mode, d: seq<Byte>, at: nat, hooks: seq<Hook<S>>, parts: seq<S>,
      was: seq<S>)
    requires |hooks| == |parts| == |was| && (forall h :: h in hooks ==> Inverse(h))
    requires HasAt(d, at, HooksImage(m, hooks, parts))
    ensures PartsAt(m, d, at, hooks, was) == Just(Restored(hooks, parts, was), at + |HooksImage(m, hooks, parts)|)
    decreases |hooks|
  {
    if hooks != [] {
      var h := hooks[0];
      assert Inverse(h);
      var a := if h.save.Some? then h.save.value(parts[0], m) else [];
      HasBoth(d, at, a, HooksImage(m, hooks[1..], parts[1..]));
      PartsBack(m, d, at + |a|, hooks[1..], parts[1..], was[1..]);
    }
  }

  lemma DataReads<S(!new)>(m: Mode, d: seq<Byte>, ob: Object<S>, was: seq<S>)
    requires |ob.cls.hooks| == |ob.parts| == |was| && (forall h :: h in ob.cls.hooks ==> Inverse(h))
    requires CString(ob.cls.name) && |ob.cls.name| < NAME_FIELD
    requires ob.cls.ver.major < 0x1_0000_0000 && ob.cls.ver.minor < 0x1_0000_0000
    ensures Reads(DataReader(m, DataMode(m, ob.flags), d, ob.cls, was), d, DataImage(m, ob),
      (ob.cls.ver, Restored(ob.cls.hooks, ob.parts, was)))
  {
    var dm, parts := DataMode(m, ob.flags), Restored(ob.cls.hooks, ob.parts, was);
    var image := HooksImage(dm, ob.cls.hooks, ob.parts);
    VersionReads(m, d, ob.cls.name, ob.cls.ver);
    forall p: nat | HasAt(d, p, image)
      ensures PartsReader(dm, d, ob.cls.hooks, was)(p) == Just(parts, p + |image|)
    {
      PartsBack(dm, d, p, ob.cls.hooks, ob.parts, was);
    }
    ThenReads(VersionReader(m, d, ob.cls.name, ob.cls.ver.major), PartsReader(dm, d, ob.cls.hooks, was),
      d, VersionImage(m, ob.cls.name, ob.cls.ver), image, ob.cls.ver, parts);
  }

  // An object whose tables can be given back: outside debug mode if it has dependencies or
  // strings, and without constant strings
  ghost predicate Restorable<S>(m: Mode, ob: Object<S>) {
    && Storable(ob) && |ob.cls.hier| < 256 && |ob.cls.libs| < 128
    && CString(ob.cls.name) && |ob.cls.name| < NAME_FIELD
    && (forall s :: s in PathsOf(ob.deps) ==> !m.debug && |s| <= 32767)
    && (forall e :: e in SavedOf(ob.vars) ==> Loadable(m, e) && e.kind != ConstText)
  }

  // Of the flags the saved ones come back, and the others are as they were: so the mode of
  // the class functions is the same again only if the object has the same debugging flag.
  lemma FlagsBack<S>(was: Flagword, ob: Object<S>)
    ensures var f := LoadedFlags(was, SavedWord(ob));
      forall i :: 0 <= i < 32 ==> f[i] == if i in SAVED_FLAGS then ob.flags[i] else was[i]
  {
    forall i | 0 <= i < 32
      ensures Bit(SavedWord(ob), i) == (ob.flags[i] && i in SAVED_FLAGS)
    {
      BitsReadBack(And(ob.flags, SAVED_FLAGS), i);
    }
  }

  // What AG_ObjectSerialize writes, AG_ObjectUnserialize gives back if and only if it holds
  // no entries for children.
  lemma ObjectReads<S(!new)>(m: Mode, d: seq<Byte>, base: nat, ob: Object<S>, flags: Flagword, was: seq<S>)
    requires Restorable(m, ob) && |was| == |ob.parts| && (forall h :: h in ob.cls.hooks ==> Inverse(h))
    requires flags[DEBUG_DATA] == ob.flags[DEBUG_DATA]
    ensures var reader, image := ObjectReader(m, d, ob.cls, flags, was), ObjectImage(m, base, ob);
      if EnteredOf(ob) == [] then
        Reads(reader, d, image,
          (HeaderOf(m, base, ob), (BodyOf(ob), (ob.cls.ver, Restored(ob.cls.hooks, ob.parts, was)))))
      else Fails(reader, d, image)
  {
    var h, b, s := HeaderImage(m, base, ob), BodyImage(m, ob), DataImage(m, ob);
    var header, parts := HeaderOf(m, base, ob), Restored(ob.cls.hooks, ob.parts, was);
    HeaderReads(m, d, base, ob);
    BodyReads(m, d, ob);
    FlagsBack(flags, ob);
    var dm := DataMode(m, LoadedFlags(flags, SavedWord(ob)));
    assert dm == DataMode(m, ob.flags);
    DataReads(m, d, ob, was);
    var f, g := BodyReader(m, d), DataReader(m, dm, d, ob.cls, was);
    assert BehindHeader(m, d, ob.cls, flags, was)(header) == Then(f, g);
    if EnteredOf(ob) == [] {
      ThenReads(f, g, d, b, s, BodyOf(ob), (ob.cls.ver, parts));
      DependingReads(HeaderReader(m, d), BehindHeader(m, d, ob.cls, flags, was), d, h, b + s, header,
        (BodyOf(ob), (ob.cls.ver, parts)));
    } else {
      ThenFails(f, g, d, b, s, BodyOf(ob));
      DependingFails(HeaderReader(m, d), BehindHeader(m, d, ob.cls, flags, was), d, h, b + s, header);
    }
  }

  // The saved offset is where the dataset starts.
  lemma OffsetExact<S>(m: Mode, at: nat, ob: Object<S>)
    requires at + |HeaderImage(m, at, ob)| + |BodyImage(m, ob)| < 0x1_0000_0000
    ensures DataOffset(m, at, ob) == at + |HeaderImage(m, at, ob)| + |BodyImage(m, ob)|
  {
    hide LeadImage, BodyImage, IntImage, SavedWord;
    HeaderSize(LeadImage(m, ob.cls), Word(m, DataOffset(m, at, ob)), Word(m, SavedWord(ob)), TagSize(m) + 4);
  }
}
