/** Loading an archived object (core/object.c: AG_ObjectUnserialize and what it calls).  An
    error of the data source, for which the default handler does not return, counts as failure
    to load. */
module Loading {

  import opened ByteOrder
  import opened Wire
  import opened DataSource
  import opened Variables
  import Words
  import opened Archive

  // The object that is loaded into
  class Target<S> {
    const cls: Class<S>
    var flags: Flagword
    var deps: seq<Str>
    var vars: map<Str, Held>
    var parts: seq<S>

    ghost predicate Valid()
      reads this
    {
      |parts| == |cls.hooks|
    }

  }

  // The variables loading starts with: none with the flag AG_OBJECT_FLOATING_VARS
  function Cleared(flags: Flagword, vars: map<Str, Held>): map<Str, Held> {
    if flags[0] then map[] else vars
  }

  method ReadWord(ds: CoreSource) returns (p: Parsed<nat>)
    requires ds.Valid()
    modifies ds`offs, ds`rdLast, ds`rdTotal
    ensures ds.Valid() && p == WordReader(ds.Settings(), ds.data)(old(ds.offs))
    ensures p.Just? ==> ds.offs == p.next
  {
    p := ds.ReadInt(UINT32, 4);
  }

  method CopyString(ds: CoreSource, size: nat) returns (p: Parsed<(Str, nat)>)
    requires ds.Valid() && size > 0
    modifies ds`offs, ds`rdLast, ds`rdTotal
    ensures ds.Valid() && p == CopyReader(ds.Settings(), ds.data, size)(old(ds.offs))
    ensures p.Just? ==> ds.offs == p.next
  {
    p := ds.CopyString(size);
  }

  method ReadTwoStrings(ds: CoreSource) returns (p: Parsed<((Str, nat), (Str, nat))>)
    requires ds.Valid()
    modifies ds`offs, ds`rdLast, ds`rdTotal
    ensures ds.Valid()
    ensures p == Then(CopyReader(ds.Settings(), ds.data, 256), CopyReader(ds.Settings(), ds.data, 128))(old(ds.offs))
    ensures p.Just? ==> ds.offs == p.next
  {
    var hier := CopyString(ds, 256);
    if hier.Nothing? {
      return Nothing;
    }
    var libs := CopyString(ds, 128);
    p := if libs.Nothing? then Nothing else Just((hier.val, libs.val), libs.next);
  }

  method ReadClass(ds: CoreSource, ver: Version) returns (p: Parsed<(Str, Str)>)
    requires ds.Valid()
    modifies ds`offs, ds`rdLast, ds`rdTotal
    ensures ds.Valid() && p == ClassReader(ds.Settings(), ds.data)(ver)(old(ds.offs))
    ensures p.Just? ==> ds.offs == p.next
  {
    if ver.minor < 2 {
      return Just(([], []), ds.offs);
    }
    var both := ReadTwoStrings(ds);
    p := WithoutLengths(both);
  }

  method ReadLead(ds: CoreSource) returns (p: Parsed<(Version, (Str, Str))>)
    requires ds.Valid()
    modifies ds`offs, ds`rdLast, ds`rdTotal
    ensures ds.Valid() && p ==
      Depending(VersionReader(ds.Settings(), ds.data, OBJECT_NAME, 7),
        ClassReader(ds.Settings(), ds.data))(old(ds.offs))
    ensures p.Just? ==> ds.offs == p.next
  {
    var ver := ReadVersion(ds, OBJECT_NAME, 7);
    if ver.Nothing? {
      return Nothing;
    }
    var cls := ReadClass(ds, ver.val);
    p := if cls.Nothing? then Nothing else Just((ver.val, cls.val), cls.next);
  }

  method ReadVersion(ds: CoreSource, name: Str, major: nat) returns (p: Parsed<Version>)
    requires ds.Valid()
    modifies ds`offs, ds`rdLast, ds`rdTotal
    ensures ds.Valid() && p == VersionReader(ds.Settings(), ds.data, name, major)(old(ds.offs))
    ensures p.Just? ==> ds.offs == p.next
  {
    p := ds.ReadVersion(name, major);
  }

  method ReadTwoWords(ds: CoreSource) returns (p: Parsed<(nat, nat)>)
    requires ds.Valid()
    modifies ds`offs, ds`rdLast, ds`rdTotal
    ensures ds.Valid()
    ensures p == Then(WordReader(ds.Settings(), ds.data), WordReader(ds.Settings(), ds.data))(old(ds.offs))
    ensures p.Just? ==> ds.offs == p.next
  {
    var off := ReadWord(ds);
    if off.Nothing? {
      return Nothing;
    }
    var flags := ReadWord(ds);
    p := if flags.Nothing? then Nothing else Just((off.val, flags.val), flags.next);
  }

  // AG_ObjectReadHeader
  method ReadHeader(ds: CoreSource) returns (p: Parsed<Header>)
    requires ds.Valid()
    modifies ds`offs, ds`rdLast, ds`rdTotal
    ensures ds.Valid() && p == HeaderReader(ds.Settings(), ds.data)(old(ds.offs))
    ensures p.Just? ==> ds.offs == p.next
  {
    var lead := ReadLead(ds);
    if lead.Nothing? {
      return Nothing;
    }
    var words := ReadTwoWords(ds);
    p := if words.Nothing? then Nothing else Just((lead.val, words.val), words.next);
  }

  // ---- Dependencies ----

  method ReadString(ds: CoreSource) returns (p: Parsed<Str>)
    requires ds.Valid()
    modifies ds`offs, ds`rdLast, ds`rdTotal
    ensures ds.Valid() && p == StringReader(ds.Settings(), ds.data)(old(ds.offs))
    ensures p.Just? ==> ds.offs == p.next
  {
    p := ds.ReadString(32767);
  }

  method ReadPaths(ds: CoreSource, count: nat) returns (p: Parsed<seq<Str>>)
    requires ds.Valid()
    modifies ds`offs, ds`rdLast, ds`rdTotal
    ensures ds.Valid() && p == CountedReader(ds.Settings(), ds.data, count)(old(ds.offs))
    ensures p.Just? ==> ds.offs == p.next
  {
    hide StringAt;
    ghost var item, at := StringReader(ds.Settings(), ds.data), ds.offs;
    var deps := [];
    var i := 0;
    PrefixedNone(Many(item, at, count));
    while i < count
      invariant i <= count && ds.Valid()
      invariant Many(item, at, count) == Prefixed(deps, Many(item, ds.offs, count - i))
    {
      ManyStep(item, ds.offs, count - i, deps);
      var s := ReadString(ds);
      if s.Nothing? {
        return Nothing;
      }
      deps := deps + [s.val];
      i := i + 1;
    }
    assert deps + [] == deps;
    p := Just(deps, ds.offs);
  }

  // ReadDependencyTable
  method ReadDeps(ds: CoreSource) returns (p: Parsed<(nat, seq<Str>)>)
    requires ds.Valid()
    modifies ds`offs, ds`rdLast, ds`rdTotal
    ensures ds.Valid() && p == DepsReader(ds.Settings(), ds.data)(old(ds.offs))
    ensures p.Just? ==> ds.offs == p.next
  {
    var count := ReadWord(ds);
    if count.Nothing? {
      return Nothing;
    }
    var deps := ReadPaths(ds, count.val);
    p := if deps.Nothing? then Nothing else Just((count.val, deps.val), deps.next);
  }

  // ---- Variables ----

  method ReadKey(ds: CoreSource) returns (p: Parsed<(Str, Kind)>)
    requires ds.Valid()
    modifies ds`offs, ds`rdLast, ds`rdTotal
    ensures ds.Valid() && p == KeyAt(ds.Settings(), ds.data, old(ds.offs))
    ensures p.Just? ==> ds.offs == p.next
  {
    var key := ds.CopyString(64);
    if key.Nothing? || key.val.1 >= 64 {
      return Nothing;
    }
    var code := ds.ReadInt(UINT32, 4);
    if code.Nothing? {
      return Nothing;
    }
    var k := FindCode(Words.Int32(code.val));
    p := Just((key.val.0, k), code.next);
  }

  method ReadData(ds: CoreSource, name: Str, k: Kind) returns (p: Parsed<Entry>)
    requires ds.Valid()
    modifies ds`offs, ds`rdLast, ds`rdTotal
    ensures ds.Valid() && p == Variables.DataAt(ds.Settings(), ds.data, old(ds.offs), name, k)
    ensures p.Just? ==> ds.offs == p.next
  {
    if Numeric(k) {
      var v := ds.ReadInt(TypeCode(k), Width(k));
      return if v.Nothing? then Nothing else Just(Entry(name, k, Bits(v.val)), v.next);
    }
    if k == Text {
      var s := ds.ReadString(32767);
      return if s.Nothing? then Nothing else Just(Entry(name, k, Chars(s.val)), s.next);
    }
    return Nothing;
  }

  method ReadEntry(ds: CoreSource) returns (p: Parsed<Entry>)
    requires ds.Valid()
    modifies ds`offs, ds`rdLast, ds`rdTotal
    ensures ds.Valid() && p == EntryReader(ds.Settings(), ds.data)(old(ds.offs))
    ensures p.Just? ==> ds.offs == p.next
  {
    var key := ReadKey(ds);
    if key.Nothing? {
      return Nothing;
    }
    p := ReadData(ds, key.val.0, key.val.1);
  }

  // The loop of AG_ObjectLoadVariables: which entries there are, where, and whether there are
  // as many as there should be.
  method LoadEach<S>(t: Target<S>, ds: CoreSource, count: nat)
    returns (ok: bool, ghost es: seq<Entry>, ghost at: seq<nat>)
    requires ds.Valid()
    modifies ds`offs, ds`rdLast, ds`rdTotal, t`vars
    ensures ds.Valid() && Chain(EntryReader(ds.Settings(), ds.data), es, at) && at[0] == old(ds.offs)
    ensures if ok then |es| == count && at[count] == ds.offs
            else |es| < count && EntryReader(ds.Settings(), ds.data)(at[|es|]) == Nothing
    ensures ok ==> t.vars == SetAll(old(t.vars), es)
  {
    hide EntryAt, Set;
    es, at := [], [ds.offs];
    var i := 0;
    while i < count
      invariant i <= count && ds.Valid() && t.vars == SetAll(old(t.vars), es)
      invariant |es| == i && Chain(EntryReader(ds.Settings(), ds.data), es, at) && at[0] == old(ds.offs)
      invariant at[i] == ds.offs
    {
      var e := ReadEntry(ds);
      if e.Nothing? {
        return false, es, at;
      }
      SetAllMore(old(t.vars), es, e.val);
      t.vars := Set(t.vars, e.val);
      es, at := es + [e.val], at + [ds.offs];
      i := i + 1;
    }
    ok := true;
  }

  method LoadEntries<S>(t: Target<S>, ds: CoreSource, count: nat) returns (ok: bool, ghost p: Parsed<seq<Entry>>)
    requires ds.Valid()
    modifies ds`offs, ds`rdLast, ds`rdTotal, t`vars
    ensures ds.Valid() && p == EntriesAt(ds.Settings(), ds.data, old(ds.offs), count) && ok == p.Just?
    ensures ok ==> ds.offs == p.next && t.vars == SetAll(old(t.vars), p.val)
  {
    ghost var es: seq<Entry>, at: seq<nat>;
    ok, es, at := LoadEach(t, ds, count);
    p := LoadedEntries(ds.Settings(), ds.data, es, at, count);
  }

  lemma LoadedEntries(m: Mode, d: seq<Byte>, es: seq<Entry>, at: seq<nat>, count: nat) returns (p: Parsed<seq<Entry>>)
    requires Chain(EntryReader(m, d), es, at) && |es| <= count
    requires |es| < count ==> EntryReader(m, d)(at[|es|]) == Nothing
    ensures p == EntriesAt(m, d, at[0], count)
    ensures p == if |es| == count then Just(es, at[count]) else Nothing
  {
    ChainReads(EntryReader(m, d), es, at, count - |es|);
    assert es + [] == es;
    p := EntriesAt(m, d, at[0], count);
  }

  lemma {:induction false} SetAllMore(vars: map<Str, Held>, es: seq<Entry>, e: Entry)
    ensures SetAll(vars, es + [e]) == Set(SetAll(vars, es), e)
    decreases |es|
  {
    if es == [] {
      assert [] + [e] == [e] && [e][1..] == [];
    } else {
      assert (es + [e])[1..] == es[1..] + [e];
      SetAllMore(Set(vars, es[0]), es[1..], e);
    }
  }

  // AG_ObjectLoadVariables
  method LoadVariables<S>(t: Target<S>, ds: CoreSource) returns (ok: bool)
    requires ds.Valid()
    modifies ds`offs, ds`rdLast, ds`rdTotal, t`vars
    ensures ds.Valid()
    ensures var p := TableReader(ds.Settings(), ds.data)(old(ds.offs));
      ok == p.Just? && (ok ==> ds.offs == p.next && t.vars == SetAll(Cleared(t.flags, old(t.vars)), p.val))
  {
    var ver := ds.ReadVersion(PROP_TABLE, 2);
    if ver.Nothing? {
      return false;
    }
    t.vars := Cleared(t.flags, t.vars);
    var count := ds.ReadInt(UINT32, 4);
    if count.Nothing? {
      return false;
    }
    ghost var p;
    ok, p := LoadEntries(t, ds, count.val);
  }

  // ---- The whole object ----

  method ReadNoChildren(ds: CoreSource) returns (ok: bool)
    requires ds.Valid()
    modifies ds`offs, ds`rdLast, ds`rdTotal
    ensures ds.Valid()
    ensures var p := NoChildren(ds.Settings(), ds.data)(old(ds.offs));
      ok == p.Just? && (ok ==> ds.offs == p.next && p.val == 0)
  {
    var n := ds.ReadInt(UINT32, 4);
    ok := n.Just? && n.val == 0;
  }

  // Variables, and no children
  method LoadRest<S>(t: Target<S>, ds: CoreSource) returns (ok: bool)
    requires ds.Valid()
    modifies ds`offs, ds`rdLast, ds`rdTotal, t`vars
    ensures ds.Valid()
    ensures var p := Then(TableReader(ds.Settings(), ds.data), NoChildren(ds.Settings(), ds.data))(old(ds.offs));
      ok == p.Just? && (ok ==> ds.offs == p.next && t.vars == SetAll(Cleared(t.flags, old(t.vars)), p.val.0))
  {
    ok := LoadVariables(t, ds);
    if ok {
      ok := ReadNoChildren(ds);
    }
  }

  method LoadBody<S>(t: Target<S>, ds: CoreSource) returns (ok: bool, ghost p: Parsed<Body>)
    requires ds.Valid()
    modifies ds`offs, ds`rdLast, ds`rdTotal, t`vars, t`deps
    ensures ds.Valid() && p == BodyReader(ds.Settings(), ds.data)(old(ds.offs)) && ok == p.Just?
    ensures ok ==>
      && ds.offs == p.next && t.deps == old(t.deps) + p.val.0.1
      && t.vars == SetAll(Cleared(t.flags, old(t.vars)), p.val.1.0)
  {
    p := BodyReader(ds.Settings(), ds.data)(ds.offs);
    var deps := ReadDeps(ds);
    if deps.Nothing? {
      return false, p;
    }
    t.deps := t.deps + deps.val.1;
    ok := LoadRest(t, ds);
  }

  // Load functions do not read past the end of the source.
  ghost predicate Bounded<S>(hooks: seq<Hook<S>>) {
    forall h, m: Mode, d: seq<Byte>, at: nat :: h in hooks && h.load.Some? && h.load.value(m, d, at).Just? ==>
      h.load.value(m, d, at).next <= |d|
  }

  // The load functions of the classes, in the order of the hierarchy
  method LoadParts<S>(t: Target<S>, ds: CoreSource) returns (ok: bool)
    requires ds.Valid() && t.Valid() && Bounded(t.cls.hooks)
    modifies ds`offs, t`parts
    ensures ds.Valid() && t.Valid()
    ensures var p := PartsReader(ds.Settings(), ds.data, t.cls.hooks, old(t.parts))(old(ds.offs));
      ok == p.Just? && (ok ==> ds.offs == p.next && t.parts == p.val)
  {
    ghost var m, d, at, was := ds.Settings(), ds.data, ds.offs, t.parts;
    var hooks := t.cls.hooks;
    var done := [];
    var i := 0;
    PrefixedNone(PartsAt(m, d, at, hooks, was));
    assert hooks[0..] == hooks && was[0..] == was;
    while i < |hooks|
      invariant i <= |hooks| && ds.Valid() && t.parts == was && |done| == i
      invariant PartsAt(m, d, at, hooks, was) == Prefixed(done, PartsAt(m, d, ds.offs, hooks[i..], was[i..]))
    {
      PartsStep(m, d, ds.offs, hooks, was, i, done);
      if hooks[i].load.Some? {
        var p := hooks[i].load.value(ds.Settings(), ds.data, ds.offs);
        if p.Nothing? {
          return false;
        }
        done := done + [p.val];
        ds.offs := p.next;
      } else {
        done := done + [t.parts[i]];
      }
      i := i + 1;
    }
    assert done + [] == done;
    t.parts := done;
    ok := true;
  }

  lemma PartsStep<S>(m: Mode, d: seq<Byte>, at: nat, hooks: seq<Hook<S>>, was: seq<S>, i: nat, done: seq<S>)
    requires i < |hooks| == |was|
    ensures var h := hooks[i];
      Prefixed(done, PartsAt(m, d, at, hooks[i..], was[i..])) ==
        if h.load.None? then Prefixed(done + [was[i]], PartsAt(m, d, at, hooks[i + 1..], was[i + 1..]))
        else match h.load.value(m, d, at)
          case Nothing => Nothing
          case Just(part, p) => Prefixed(done + [part], PartsAt(m, d, p, hooks[i + 1..], was[i + 1..]))
  {
    assert hooks[i..][1..] == hooks[i + 1..] && was[i..][1..] == was[i + 1..];
    var h := hooks[i];
    if h.load.None? {
      PrefixedTwice(done, was[i], PartsAt(m, d, at, hooks[i + 1..], was[i + 1..]));
    } else if h.load.value(m, d, at).Just? {
      PrefixedTwice(done, h.load.value(m, d, at).val,
        PartsAt(m, d, h.load.value(m, d, at).next, hooks[i + 1..], was[i + 1..]));
    }
  }

  lemma PrefixedTwice<T>(a: seq<T>, x: T, p: Parsed<seq<T>>)
    ensures Prefixed(a, Prefixed([x], p)) == Prefixed(a + [x], p)
  {
    if p.Just? {
      assert a + ([x] + p.val) == (a + [x]) + p.val;
    }
  }

  // The dataset
  method LoadData<S>(t: Target<S>, ds: CoreSource) returns (ok: bool, ghost p: Parsed<(Version, seq<S>)>)
    requires ds.Valid() && t.Valid() && Bounded(t.cls.hooks)
    modifies ds`offs, ds`rdLast, ds`rdTotal, ds`debug, t`parts
    ensures ds.Valid() && t.Valid() && ok == p.Just?
    ensures var m := old(ds.Settings());
      p == DataReader(m, DataMode(m, t.flags), ds.data, t.cls, old(t.parts))(old(ds.offs))
    ensures ok ==> ds.offs == p.next && t.parts == p.val.1
    ensures ds.debug == old(ds.debug) || (t.flags[DEBUG_DATA] && ds.debug)
  {
    p := DataReader(ds.Settings(), DataMode(ds.Settings(), t.flags), ds.data, t.cls, t.parts)(ds.offs);
    var ver := ReadVersion(ds, t.cls.name, t.cls.ver.major);
    if ver.Nothing? {
      return false, p;
    }
    if t.flags[DEBUG_DATA] {
      ds.debug := true;
    }
    ok := LoadParts(t, ds);
  }

  // The header in mode m of the data d
  method ReadHeaderOf(ds: CoreSource, ghost m: Mode, ghost d: seq<Byte>) returns (p: Parsed<Header>)
    requires ds.Valid() && m == ds.Settings() && d == ds.data
    modifies ds`offs, ds`rdLast, ds`rdTotal
    ensures ds.Valid() && p == HeaderReader(m, d)(old(ds.offs))
    ensures p.Just? ==> ds.offs == p.next
  {
    p := ReadHeader(ds);
  }

  // What is loaded after the header
  method LoadContents<S>(t: Target<S>, ds: CoreSource, ghost m: Mode, ghost d: seq<Byte>)
    returns (ok: bool, ghost body: Parsed<Body>, ghost data: Parsed<(Version, seq<S>)>)
    requires ds.Valid() && t.Valid() && Bounded(t.cls.hooks) && m == ds.Settings() && d == ds.data
    modifies ds`offs, ds`rdLast, ds`rdTotal, ds`debug, t`deps, t`vars, t`parts
    ensures ds.Valid() && t.Valid() && ok == (body.Just? && data.Just?)
    ensures Contained(m, d, t.cls, t.flags, old(t.parts), old(ds.offs), body, data)
    ensures ok ==> ds.offs == data.next && Filled(t, old(t.deps), old(t.vars), body.val, data.val)
    ensures ds.debug == old(ds.debug) || (t.flags[DEBUG_DATA] && ds.debug)
  {
    data := Nothing;
    ok, body := LoadBody(t, ds);
    if ok {
      ok, data := LoadData(t, ds);
    }
  }

  // The saved flags in place of the object's
  method TakeFlags<S>(t: Target<S>, saved: nat)
    modifies t`flags
    ensures t.flags == LoadedFlags(old(t.flags), saved)
  {
    t.flags := LoadedFlags(t.flags, saved);
  }

  method LoadFlagged<S>(t: Target<S>, ds: CoreSource, ghost m: Mode, ghost d: seq<Byte>, saved: nat)
    returns (ok: bool, ghost body: Parsed<Body>, ghost data: Parsed<(Version, seq<S>)>)
    requires ds.Valid() && t.Valid() && Bounded(t.cls.hooks) && m == ds.Settings() && d == ds.data
    modifies ds`offs, ds`rdLast, ds`rdTotal, ds`debug, t
    ensures ds.Valid() && t.Valid() && t.flags == LoadedFlags(old(t.flags), saved)
    ensures Contained(m, d, t.cls, t.flags, old(t.parts), old(ds.offs), body, data) && ok == (body.Just? && data.Just?)
    ensures ok ==> ds.offs == data.next && Filled(t, old(t.deps), old(t.vars), body.val, data.val)
    ensures ds.debug == old(ds.debug) || (t.flags[DEBUG_DATA] && ds.debug)
  {
    TakeFlags(t, saved);
    ok, body, data := LoadContents(t, ds, m, d);
  }

  // The tables and the dataset as they are read from an offset on
  ghost predicate Contained<S>(m: Mode, d: seq<Byte>, cls: Class<S>, flags: Flagword, parts: seq<S>, at: nat,
      body: Parsed<Body>, data: Parsed<(Version, seq<S>)>)
  {
    && |parts| == |cls.hooks| && body == BodyReader(m, d)(at)
    && (body.Just? ==> data == DataReader(m, DataMode(m, flags), d, cls, parts)(body.next))
  }

  // What an object is after loading, when it had these dependencies and variables before
  ghost predicate Filled<S>(t: Target<S>, deps: seq<Str>, vars: map<Str, Held>, body: Body, data: (Version, seq<S>))
    reads t
  {
    t.deps == deps + body.0.1 && t.parts == data.1 && t.vars == SetAll(Cleared(t.flags, vars), body.1.0)
  }

  // AG_ObjectUnserialize: the header, the tables and the dataset are read where the one
  // before ends, and the object is loaded if and only if all three can be.
  method Unserialize<S>(t: Target<S>, ds: CoreSource, ghost m: Mode, ghost d: seq<Byte>) returns (rc: int,
      ghost header: Parsed<Header>, ghost body: Parsed<Body>, ghost data: Parsed<(Version, seq<S>)>)
    requires ds.Valid() && t.Valid() && Bounded(t.cls.hooks) && m == ds.Settings() && d == ds.data
    modifies ds`offs, ds`rdLast, ds`rdTotal, ds`debug, t
    ensures ds.Valid() && t.Valid() && rc == (if header.Just? && body.Just? && data.Just? then 0 else -1)
    ensures header == HeaderReader(m, d)(old(ds.offs))
    ensures header.Just? ==> t.flags == LoadedFlags(old(t.flags), header.val.1.1)
    ensures header.Just? ==> Contained(m, d, t.cls, t.flags, old(t.parts), header.next, body, data)
    ensures rc == 0 ==> ds.offs == data.next && Filled(t, old(t.deps), old(t.vars), body.val, data.val)
    ensures rc != 0 ==> t.deps == []
    ensures ds.debug == (old(ds.debug) && !t.flags[DEBUG_DATA])
  {
    hide HeaderReader, BodyReader, DataReader, Filled;
    body, data := Nothing, Nothing;
    var head := ReadHeaderOf(ds, m, d);
    header := head;
    var ok := head.Just?;
    if ok {
      ok, body, data := LoadFlagged(t, ds, m, d, head.val.1.1);
    }
    rc := Finish(t, ds, ok);
  }

  // The end of both the successful and the failing path
  method Finish<S>(t: Target<S>, ds: CoreSource, ok: bool) returns (rc: int)
    modifies ds`debug, t`deps
    ensures rc == (if ok then 0 else -1) && t.deps == (if ok then old(t.deps) else [])
    ensures ds.debug == (old(ds.debug) && !t.flags[DEBUG_DATA])
  {
    if t.flags[DEBUG_DATA] {
      ds.debug := false;
    }
    if !ok {
      t.deps := [];
    }
    rc := if ok then 0 else -1;
  }
}
