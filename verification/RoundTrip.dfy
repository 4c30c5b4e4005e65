/** An object written to a memory source and read back from it (core/object.c:
    AG_ObjectSerialize and then AG_ObjectUnserialize). */
module RoundTrip {

  import opened ByteOrder
  import opened Wire
  import opened DataSource
  import opened Variables
  import opened Archive
  import opened Loading

  // The three readers of AG_ObjectUnserialize make up that of the whole object.
  lemma Assembled<S>(m: Mode, d: seq<Byte>, cls: Class<S>, flags: Flagword, was: seq<S>, at: nat,
      header: Parsed<Header>, body: Parsed<Body>, data: Parsed<(Version, seq<S>)>)
    requires |cls.hooks| == |was| && header == HeaderReader(m, d)(at)
    requires header.Just? ==> Contained(m, d, cls, LoadedFlags(flags, header.val.1.1), was, header.next, body, data)
    ensures ObjectReader(m, d, cls, flags, was)(at) ==
            if header.Nothing? || body.Nothing? || data.Nothing? then Nothing
            else Just((header.val, (body.val, data.val)), data.next)
  {
    hide HeaderReader, BodyReader, DataReader, LoadedFlags;
    var g := BehindHeader(m, d, cls, flags, was);
    if header.Just? {
      var f, s := BodyReader(m, d), DataReader(m, DataMode(m, LoadedFlags(flags, header.val.1.1)), d, cls, was);
      ThenAt(f, s, header.next, body, data);
      DependingAt(HeaderReader(m, d), g, at, header, Then(f, s)(header.next));
    } else {
      DependingAt(HeaderReader(m, d), g, at, header, Nothing);
    }
  }

  // A version written in debug mode is not read outside of it: the type code of the major
  // number is taken for the number.
  lemma OtherMode(m: Mode, d: seq<Byte>, at: nat, name: Str, ver: Version, major: nat)
    requires m.debug && major != UINT32 && HasAt(d, at, VersionImage(m, name, ver))
    ensures VersionAt(m.(debug := false), d, at, name, major) == Nothing
  {
    var x, y := IntImage(m, UINT32, ver.major, 4), IntImage(m, UINT32, ver.minor, 4);
    HasBoth(d, at, NameField(name), x + y);
    HasBoth(d, at + NAME_FIELD, x, y);
    HasBoth(d, at + NAME_FIELD, Tag(m, UINT32), m.codec.enc(ver.major, 4));
    assert Pow256(4) == 0x1_0000_0000;
  }

  // Nor is an object.
  lemma HeaderOtherMode<S>(m: Mode, d: seq<Byte>, at: nat, ob: Object<S>)
    requires m.debug && |ob.cls.hooks| == |ob.parts| && HasAt(d, at, ObjectImage(m, at, ob))
    ensures HeaderReader(m.(debug := false), d)(at) == Nothing
  {
    var off := m.(debug := false);
    var v, c := VersionImage(m, OBJECT_NAME, Version(7, 2)), StringImage(m, ob.cls.hier) + StringImage(m, ob.cls.libs);
    HasBoth(d, at, HeaderImage(m, at, ob), BodyImage(m, ob) + Archive.DataImage(m, ob));
    HasBoth(d, at, v + c, Word(m, DataOffset(m, at, ob)) + Word(m, SavedWord(ob)));
    HasBoth(d, at, v, c);
    OtherMode(m, d, at, OBJECT_NAME, Version(7, 2), 7);
    NoHeader(off, d, at);
  }

  lemma NoHeader(m: Mode, d: seq<Byte>, at: nat)
    requires VersionAt(m, d, at, OBJECT_NAME, 7) == Nothing
    ensures HeaderReader(m, d)(at) == Nothing
  {
    var f, g := VersionReader(m, d, OBJECT_NAME, 7), ClassReader(m, d);
    DependingAt(f, g, at, Nothing, Nothing);
    ThenAt(Depending(f, g), Then(WordReader(m, d), WordReader(m, d)), at, Nothing, Nothing);
  }

  // What the source and the target must be for the object to come back
  ghost predicate Fits<S>(ob: Object<S>, t: Target<S>)
    reads t
  {
    && t.Valid() && t.cls == ob.cls && Bounded(ob.cls.hooks) && t.flags[DEBUG_DATA] == ob.flags[DEBUG_DATA]
    && Settable(if ob.flags[0] then map[] else t.vars, SavedOf(ob.vars))
  }

  // The object has come back to a target that had these flags, dependencies, variables and parts.
  ghost predicate CameBack<S>(ob: Object<S>, t: Target<S>, flags: Flagword, deps: seq<Str>, vars: map<Str, Held>,
      parts: seq<S>)
    requires |ob.cls.hooks| == |ob.parts| == |parts|
    reads t
  {
    && (forall i :: 0 <= i < 32 ==> t.flags[i] == if i in SAVED_FLAGS then ob.flags[i] else flags[i])
    && t.deps == deps + PathsOf(ob.deps) && t.parts == Restored(ob.cls.hooks, ob.parts, parts)
    && (forall e :: e in SavedOf(ob.vars) ==> e.name in t.vars && t.vars[e.name] == Held(e.kind, e.value))
    && (!ob.flags[0] ==> forall n :: n in vars && (forall e :: e in SavedOf(ob.vars) ==> e.name != n) ==>
      n in t.vars && t.vars[n] == vars[n])
    && (forall n :: n in t.vars ==> (!ob.flags[0] && n in vars) || exists e :: e in SavedOf(ob.vars) && e.name == n)
  }

  // Outside of debug mode an object without entries for children is read; in debug mode it
  // must have no dependencies, strings or debugging flag besides.
  ghost predicate Readable<S>(m: Mode, ob: Object<S>) {
    && EnteredOf(ob) == []
    && (m.debug ==>
      !ob.flags[DEBUG_DATA] && PathsOf(ob.deps) == [] && forall e :: e in SavedOf(ob.vars) ==> e.kind != Text)
  }

  lemma ReadableIs<S>(m: Mode, ob: Object<S>)
    requires Restorable(m.(debug := false), ob)
    ensures Readable(m, ob) <==> EnteredOf(ob) == [] && !(m.debug && ob.flags[DEBUG_DATA]) && Restorable(m, ob)
    ensures Restorable(m, ob) || m.debug
    ensures |ob.cls.hooks| == |ob.parts|
  {
    assert forall e :: Loadable(m.(debug := false), e) && (m.debug ==> e.kind != Text) ==> Loadable(m, e);
    if PathsOf(ob.deps) != [] { assert PathsOf(ob.deps)[0] in PathsOf(ob.deps); }
  }

  // The tables fail where the header ends.
  lemma FailsBehind<S>(m: Mode, d: seq<Byte>, base: nat, ob: Object<S>)
    requires m.debug && Restorable(m.(debug := false), ob) && !Restorable(m, ob)
    requires HasAt(d, base, ObjectImage(m, base, ob))
    ensures var h := HeaderReader(m, d)(base); h.Just? && BodyReader(m, d)(h.next) == Nothing
  {
    hide HeaderReader, BodyReader;
    HasBoth(d, base, HeaderImage(m, base, ob), BodyImage(m, ob) + Archive.DataImage(m, ob));
    HasBoth(d, base + |HeaderImage(m, base, ob)|, BodyImage(m, ob), Archive.DataImage(m, ob));
    HeaderReads(m, d, base, ob);
    BodyFails(m, d, ob);
  }

  // The readers in the mode that is left after saving
  lemma Concluded<S(!new)>(m: Mode, now: Mode, d: seq<Byte>, base: nat, ob: Object<S>, flags: Flagword, was: seq<S>,
      header: Parsed<Header>, body: Parsed<Body>, data: Parsed<(Version, seq<S>)>)
    requires Restorable(m.(debug := false), ob) && |was| == |ob.parts| && flags[DEBUG_DATA] == ob.flags[DEBUG_DATA]
    requires forall h :: h in ob.cls.hooks ==> Inverse(h)
    requires now == m.(debug := m.debug && !ob.flags[DEBUG_DATA]) && HasAt(d, base, ObjectImage(m, base, ob))
    requires header == HeaderReader(now, d)(base)
    requires header.Just? ==>
      Contained(now, d, ob.cls, LoadedFlags(flags, header.val.1.1), was, header.next, body, data)
    ensures header.Just? && body.Just? && data.Just? <==> Readable(m, ob)
    ensures header.Just? && body.Just? && data.Just? ==>
      && header.val.1.1 == SavedWord(ob) && body.val == BodyOf(ob)
      && data.val.1 == Restored(ob.cls.hooks, ob.parts, was)
      && data.next == base + |ObjectImage(m, base, ob)|
  {
    hide HeaderReader, ObjectReader, LoadedFlags, ObjectImage, Inverse, EnteredOf, Restored, BodyOf, BodyReader,
      DataReader, Restorable, Readable;
    ReadableIs(m, ob);
    if m.debug && ob.flags[DEBUG_DATA] {
      HeaderOtherMode(m, d, base, ob);
    } else if !Restorable(m, ob) {
      assert now == m;
      FailsBehind(m, d, base, ob);
    } else {
      assert now == m;
      Assembled(m, d, ob.cls, flags, was, base, header, body, data);
      ObjectReads(m, d, base, ob, flags, was);
    }
  }

  // What AG_ObjectUnserialize fills in is what has come back.
  lemma Returned<S>(ob: Object<S>, t: Target<S>, flags: Flagword, deps: seq<Str>, vars: map<Str, Held>, parts: seq<S>,
      data: (Version, seq<S>))
    requires |ob.cls.hooks| == |ob.parts| == |parts| && Settable(if ob.flags[0] then map[] else vars, SavedOf(ob.vars))
    requires t.flags == LoadedFlags(flags, SavedWord(ob)) && data.1 == Restored(ob.cls.hooks, ob.parts, parts)
    requires Filled(t, deps, vars, BodyOf(ob), data)
    ensures CameBack(ob, t, flags, deps, vars, parts)
  {
    hide LoadedFlags, SavedWord, SetAll, Restored;
    FlagsBack(flags, ob);
    assert t.flags[0] == ob.flags[0];
    SetAllSets(if ob.flags[0] then map[] else vars, SavedOf(ob.vars));
  }

  lemma PartOfEach<S>(ob: Object<S>)
    requires Storable(ob)
    ensures |ob.cls.hooks| == |ob.parts|
  {
  }

  lemma ImageAt<S>(start: seq<Byte>, m: Mode, base: nat, ob: Object<S>)
    requires |ob.cls.hooks| == |ob.parts| && base == |start|
    ensures HasAt(start + ObjectImage(m, base, ob), base, ObjectImage(m, base, ob)) && ObjectImage(m, base, ob) != []
  {
    hide BodyImage, Archive.DataImage;
    assert |VersionImage(m, OBJECT_NAME, Version(7, 2))| > 0;
  }

  // AG_ObjectSerialize, back to where it began, and AG_ObjectUnserialize: the object comes back
  // if and only if it is readable in the mode of the source.
  method SaveAndLoad<S(!new)>(ob: Object<S>, t: Target<S>, ds: CoreSource) returns (rc: int)
    requires ds.AtEnd() && Restorable(ds.Settings().(debug := false), ob) && Fits(ob, t)
    requires forall h :: h in ob.cls.hooks ==> Inverse(h)
    modifies ds`data, ds`size, ds`offs, ds`wrLast, ds`wrTotal, ds`rdLast, ds`rdTotal, ds`debug, t
    ensures ds.Valid() && rc == if Readable(old(ds.Settings()), ob) then 0 else -1
    ensures rc == 0 ==> CameBack(ob, t, old(t.flags), old(t.deps), old(t.vars), old(t.parts)) && ds.AtEnd()
    ensures rc != 0 ==> t.deps == []
  {
    hide HeaderReader, BodyReader, DataReader, ObjectImage, Inverse, Filled, LoadedFlags, CameBack, Contained, BodyOf,
      SavedWord, Bounded, Readable, Placed, Storable, Settable;
    ghost var m, start := ds.Settings(), ds.data;
    var base := ds.offs;
    Serialize(ds, ob);
    PartOfEach(ob);
    ImageAt(start, m, base, ob);
    var _ := ds.CoreSeek(base, FromStart);
    ghost var d, now := ds.data, ds.Settings();
    ghost var flags, deps, vars, parts := t.flags, t.deps, t.vars, t.parts;
    ghost var header, body, data;
    rc, header, body, data := Unserialize(t, ds, now, d);
    Concluded(m, now, d, base, ob, flags, parts, header, body, data);
    if rc == 0 {
      Returned(ob, t, flags, deps, vars, parts, data.val);
    }
  }
}
