/** The encoding of core/load_integral.h, core/load_string.c and core/load_version.c, as
    functions from values to bytes and back. */
module Wire {

  import opened ByteOrder

  type Str = seq<Byte>  // the characters of a C string, without its NUL

  predicate CString(s: Str) {
    0 !in s
  }

  // How integers are written: as so many bytes that read back to them
  datatype RawCodec = RawCodec(enc: (nat, nat) -> seq<Byte>, dec: seq<Byte> -> nat)

  ghost predicate ReadsBackAll(c: RawCodec) {
    && (forall v: nat, k: nat :: |c.enc(v, k)| == k)
    && (forall v: nat, k: nat :: v < Pow256(k) ==> c.dec(c.enc(v, k)) == v)
  }

  type Codec = c: RawCodec | ReadsBackAll(c) witness CodecOf(BE)

  function CodecOf(o: Order): (c: RawCodec)
    ensures ReadsBackAll(c)
  {
    var c := RawCodec((v: nat, k: nat) => Bytes(o, v, k), (s: seq<Byte>) => Value(o, s));
    assert ReadsBackAll(c) by {
      forall v: nat, k: nat | v < Pow256(k) ensures c.dec(c.enc(v, k)) == v {
        ReadsBack(o, v, k);
      }
    }
    c
  }

  // The settings of a data source that its encoding depends on
  datatype Mode = Mode(debug: bool, codec: Codec)

  // What is read at an offset, and the offset behind it
  datatype Parsed<+T> = Nothing | Just(val: T, next: nat)

  datatype Version = Version(major: nat, minor: nat)

  // Type codes written ahead of each value in debug mode
  const UINT8: nat := 0x41470001
  const UINT16: nat := 0x41470003
  const UINT32: nat := 0x41470005
  const UINT64: nat := 0x41470007
  const FLOAT: nat := 0x41470009
  const DOUBLE: nat := 0x4147000a
  const STRING: nat := 0x4147000c

  const NAME_FIELD: nat := 48  // AG_VERSION_NAME_MAX

  ghost predicate HasAt(d: seq<Byte>, at: nat, image: seq<Byte>) {
    at + |image| <= |d| && d[at..at + |image|] == image
  }

  lemma Behind(d: seq<Byte>, a: seq<Byte>, b: seq<Byte>)
    requires d == a + b
    ensures HasAt(d, |a|, b)
  {
  }

  lemma HasBoth(d: seq<Byte>, at: nat, a: seq<Byte>, b: seq<Byte>)
    requires HasAt(d, at, a + b)
    ensures HasAt(d, at, a) && HasAt(d, at + |a|, b)
  {
    var ab := d[at..at + |a + b|];
    assert d[at..at + |a|] == ab[..|a|] == a;
    assert d[at + |a|..at + |a| + |b|] == ab[|a|..] == b;
  }

  // AG_WriteTypeCode and AG_CheckTypeCode
  function Tag(m: Mode, code: nat): seq<Byte> {
    if m.debug then m.codec.enc(code, 4) else []
  }

  function TagSize(m: Mode): nat {
    if m.debug then 4 else 0
  }

  predicate TagAt(m: Mode, d: seq<Byte>, at: nat, code: nat) {
    m.debug ==> at + 4 <= |d| && m.codec.dec(d[at..at + 4]) == code
  }

  lemma TagBack(m: Mode, d: seq<Byte>, at: nat, code: nat)
    requires code < 0x1_0000_0000 && HasAt(d, at, Tag(m, code))
    ensures |Tag(m, code)| == TagSize(m)
    ensures forall c :: TagAt(m, d, at, c) <==> !m.debug || c == code
  {
    assert Pow256(4) == 0x1_0000_0000;
  }

  // ---- Integers ----

  function IntImage(m: Mode, code: nat, v: nat, k: nat): seq<Byte> {
    Tag(m, code) + m.codec.enc(v, k)
  }

  function IntAt(m: Mode, d: seq<Byte>, at: nat, code: nat, k: nat): Parsed<nat> {
    var p := at + TagSize(m);
    if TagAt(m, d, at, code) && p + k <= |d| then Just(m.codec.dec(d[p..p + k]), p + k) else Nothing
  }

  lemma IntBack(m: Mode, d: seq<Byte>, at: nat, code: nat, v: nat, k: nat)
    requires code < 0x1_0000_0000 && v < Pow256(k)
    requires HasAt(d, at, IntImage(m, code, v, k))
    ensures IntAt(m, d, at, code, k) == Just(v, at + |IntImage(m, code, v, k)|)
  {
    HasBoth(d, at, Tag(m, code), m.codec.enc(v, k));
    TagBack(m, d, at, code);
  }

  lemma Uint32Back(m: Mode, d: seq<Byte>, at: nat, v: nat)
    requires v < 0x1_0000_0000 && HasAt(d, at, IntImage(m, UINT32, v, 4))
    ensures IntAt(m, d, at, UINT32, 4) == Just(v, at + |IntImage(m, UINT32, v, 4)|)
  {
    assert Pow256(4) == 0x1_0000_0000;
    IntBack(m, d, at, UINT32, v, 4);
  }

  // ---- Strings ----

  // AG_WriteString: its own type code, but a bare length
  function StringImage(m: Mode, s: Str): seq<Byte> {
    Tag(m, STRING) + (m.codec.enc(|s|, 4) + s)
  }

  // AG_ReadStringLen: the length is read with a type code of its own.
  function StringAt(m: Mode, d: seq<Byte>, at: nat, maxLen: nat): Parsed<Str> {
    if !TagAt(m, d, at, STRING) then Nothing
    else match IntAt(m, d, at + TagSize(m), UINT32, 4)
      case Nothing => Nothing
      case Just(len, p) => if len > maxLen || p + len > |d| then Nothing else Just(d[p..p + len], p + len)
  }

  // AG_CopyString, to a buffer of `size` bytes: what is copied, and the length reported
  function CopyAt(m: Mode, d: seq<Byte>, at: nat, size: nat): Parsed<(Str, nat)>
    requires size > 0
  {
    var p := at + TagSize(m);
    if !TagAt(m, d, at, STRING) || p + 4 > |d| then Nothing
    else
      var len := m.codec.dec(d[p..p + 4]);
      var n := if len > size - 1 then size - 1 else len;
      if p + 4 + n > |d| then Nothing
      else Just((d[p + 4..p + 4 + n], if len > size - 1 then len + 1 else len), p + 4 + n)
  }

  lemma StringParts(m: Mode, d: seq<Byte>, at: nat, s: Str)
    requires |s| < 0x1_0000_0000 && HasAt(d, at, StringImage(m, s))
    ensures var p := at + TagSize(m);
      && (forall c :: TagAt(m, d, at, c) <==> !m.debug || c == STRING)
      && HasAt(d, p, m.codec.enc(|s|, 4)) && HasAt(d, p + 4, s) && m.codec.dec(d[p..p + 4]) == |s|
  {
    HasBoth(d, at, Tag(m, STRING), m.codec.enc(|s|, 4) + s);
    TagBack(m, d, at, STRING);
    HasBoth(d, at + TagSize(m), m.codec.enc(|s|, 4), s);
    assert Pow256(4) == 0x1_0000_0000;
  }

  // AG_CopyString gives back what AG_WriteString wrote, in either mode, if it fits.
  lemma CopyBack(m: Mode, d: seq<Byte>, at: nat, s: Str, size: nat)
    requires |s| < size <= 0x1_0000_0000 && HasAt(d, at, StringImage(m, s))
    ensures CopyAt(m, d, at, size) == Just((s, |s|), at + |StringImage(m, s)|)
  {
    StringParts(m, d, at, s);
  }

  // If it does not, what does is copied, the length reported is one more than that of the string,
  // and the offset is behind what was copied.
  lemma CopyCut(m: Mode, d: seq<Byte>, at: nat, s: Str, size: nat)
    requires 0 < size <= |s| < 0x1_0000_0000 && HasAt(d, at, StringImage(m, s))
    ensures CopyAt(m, d, at, size) == Just((s[..size - 1], |s| + 1), at + |StringImage(m, s)| - (|s| - (size - 1)))
  {
    StringParts(m, d, at, s);
    var p := at + TagSize(m) + 4;
    assert d[p..p + (size - 1)] == d[p..p + |s|][..size - 1];
  }

  // AG_ReadStringLen gives it back if and only if the source is not in debug mode and the
  // string is no longer than allowed.  Otherwise it fails, but for a string of just 0x41470005
  // characters, whose length looks like the type code.
  lemma StringBack(m: Mode, d: seq<Byte>, at: nat, s: Str, maxLen: nat)
    requires |s| < 0x1_0000_0000 && HasAt(d, at, StringImage(m, s))
    ensures StringAt(m, d, at, maxLen) == Just(s, at + |StringImage(m, s)|) <==> !m.debug && |s| <= maxLen
    ensures |s| != UINT32 && (m.debug || |s| > maxLen) ==> StringAt(m, d, at, maxLen) == Nothing
  {
    StringParts(m, d, at, s);
  }

  // ---- Versions ----

  // The letters "agar", over and over
  function FillByte(i: nat): Byte {
    if i % 4 == 0 || i % 4 == 2 then 97 else if i % 4 == 1 then 103 else 114
  }

  // How many characters of a name its field holds
  function Kept(name: Str): nat {
    if |name| < NAME_FIELD then |name| else NAME_FIELD - 1
  }

  // The name field: the name and a NUL, over the filler
  function NameField(name: Str): (r: seq<Byte>)
    ensures |r| == NAME_FIELD
  {
    seq(NAME_FIELD, (i: nat) => FieldByte(name, i))
  }

  function FieldByte(name: Str, i: nat): Byte {
    if i < Kept(name) then name[i] else if i == Kept(name) then 0 else FillByte(i)
  }

  function VersionImage(m: Mode, name: Str, ver: Version): seq<Byte> {
    NameField(name) + (IntImage(m, UINT32, ver.major, 4) + IntImage(m, UINT32, ver.minor, 4))
  }

  // AG_ReadVersion: the name must be that expected, as far as it goes, and the major version
  // the same.
  function VersionAt(m: Mode, d: seq<Byte>, at: nat, name: Str, major: nat): Parsed<Version> {
    if at + NAME_FIELD > |d| || !(name <= d[at..at + NAME_FIELD]) then Nothing
    else match IntAt(m, d, at + NAME_FIELD, UINT32, 4)
      case Nothing => Nothing
      case Just(x, p) =>
        match IntAt(m, d, p, UINT32, 4)
        case Nothing => Nothing
        case Just(y, q) => if x == major then Just(Version(x, y), q) else Nothing
  }

  // What AG_WriteVersion wrote under a name reads back under it if and only if the name fits
  // its field with a NUL.
  lemma VersionBack(m: Mode, d: seq<Byte>, at: nat, name: Str, ver: Version)
    requires CString(name) && ver.major < 0x1_0000_0000 && ver.minor < 0x1_0000_0000
    requires HasAt(d, at, VersionImage(m, name, ver))
    ensures VersionAt(m, d, at, name, ver.major) ==
      if |name| < NAME_FIELD then Just(ver, at + |VersionImage(m, name, ver)|) else Nothing
  {
    var a, b := IntImage(m, UINT32, ver.major, 4), IntImage(m, UINT32, ver.minor, 4);
    HasBoth(d, at, NameField(name), a + b);
    HasBoth(d, at + NAME_FIELD, a, b);
    Uint32Back(m, d, at + NAME_FIELD, ver.major);
    Uint32Back(m, d, at + NAME_FIELD + |a|, ver.minor);
    if |name| >= NAME_FIELD {
      assert NameField(name)[NAME_FIELD - 1] == 0 && name[NAME_FIELD - 1] in name;
    }
  }

  // ---- Readers ----

  // A reader gives a value wherever there is an image, or nowhere.
  ghost predicate Reads<T>(item: nat -> Parsed<T>, d: seq<Byte>, image: seq<Byte>, v: T) {
    forall p: nat :: HasAt(d, p, image) ==> item(p) == Just(v, p + |image|)
  }

  ghost predicate Fails<T>(item: nat -> Parsed<T>, d: seq<Byte>, image: seq<Byte>) {
    forall p: nat :: HasAt(d, p, image) ==> item(p) == Nothing
  }

  // ---- Tables: a number of items one after the other ----

  function Joined<T>(image: T -> seq<Byte>, vs: seq<T>): seq<Byte> {
    if vs == [] then [] else image(vs[0]) + Joined(image, vs[1..])
  }

  function Many<T>(item: nat -> Parsed<T>, at: nat, count: nat): Parsed<seq<T>>
    decreases count
  {
    if count == 0 then Just([], at)
    else match item(at)
      case Nothing => Nothing
      case Just(v, p) => Prefixed([v], Many(item, p, count - 1))
  }

  function Prefixed<T>(vs: seq<T>, p: Parsed<seq<T>>): Parsed<seq<T>> {
    match p
    case Nothing => Nothing
    case Just(rest, next) => Just(vs + rest, next)
  }

  // An item that reads each value behind its image reads them all behind theirs.
  lemma {:induction false} ManyBack<T>(item: nat -> Parsed<T>, image: T -> seq<Byte>, d: seq<Byte>, at: nat, vs: seq<T>)
    requires forall v :: v in vs ==> Reads(item, d, image(v), v)
    requires HasAt(d, at, Joined(image, vs))
    ensures Many(item, at, |vs|) == Just(vs, at + |Joined(image, vs)|)
    decreases |vs|
  {
    if vs != [] {
      var v, rest := vs[0], vs[1..];
      var a, b := image(v), Joined(image, rest);
      HasBoth(d, at, a, b);
      assert Reads(item, d, a, v);
      ManyBack(item, image, d, at + |a|, rest);
      assert Many(item, at, |vs|) == Just([v] + rest, at + |a| + |b|);
      assert vs == [v] + rest;
    }
  }

  // One that cannot be read is enough for all of them to fail.
  lemma {:induction false} ManyFails<T>(item: nat -> Parsed<T>, image: T -> seq<Byte>, d: seq<Byte>, at: nat,
      vs: seq<T>, bad: T)
    requires forall v :: v in vs ==> Reads(item, d, image(v), v) || Fails(item, d, image(v))
    requires bad in vs && Fails(item, d, image(bad)) && HasAt(d, at, Joined(image, vs))
    ensures Many(item, at, |vs|) == Nothing
    decreases |vs|
  {
    var v, rest := vs[0], vs[1..];
    HasBoth(d, at, image(v), Joined(image, rest));
    if !Fails(item, d, image(v)) {
      assert Reads(item, d, image(v), v);
      ManyFails(item, image, d, at + |image(v)|, rest, bad);
    }
  }

  // Items read one after the other, from each offset up to the next
  ghost predicate Chain<T>(item: nat -> Parsed<T>, vs: seq<T>, at: seq<nat>) {
    |at| == |vs| + 1 && forall i :: 0 <= i < |vs| ==> item(at[i]) == Just(vs[i], at[i + 1])
  }

  lemma {:induction false} ChainReads<T>(item: nat -> Parsed<T>, vs: seq<T>, at: seq<nat>, n: nat)
    requires Chain(item, vs, at)
    ensures Many(item, at[0], |vs| + n) == Prefixed(vs, Many(item, at[|vs|], n))
    decreases |vs|
  {
    if vs == [] {
      PrefixedNone(Many(item, at[0], n));
    } else {
      assert item(at[0]) == Just(vs[0], at[1]);
      ChainReads(item, vs[1..], at[1..], n);
      PrefixedAll(vs[0], vs[1..], Many(item, at[|vs|], n));
      assert vs == [vs[0]] + vs[1..];
    }
  }

  lemma PrefixedNone<T>(p: Parsed<seq<T>>)
    ensures Prefixed([], p) == p
  {
    if p.Just? {
      assert [] + p.val == p.val;
    }
  }

  lemma PrefixedAll<T>(x: T, a: seq<T>, p: Parsed<seq<T>>)
    ensures Prefixed([x], Prefixed(a, p)) == Prefixed([x] + a, p)
  {
    if p.Just? {
      assert [x] + (a + p.val) == ([x] + a) + p.val;
    }
  }

  // Reading one by one, with those in `done` read already
  lemma ManyStep<T>(item: nat -> Parsed<T>, at: nat, count: nat, done: seq<T>)
    requires count > 0
    ensures Prefixed(done, Many(item, at, count)) == match item(at)
      case Nothing => Nothing
      case Just(v, p) => Prefixed(done + [v], Many(item, p, count - 1))
  {
    if item(at).Just? {
      var v, rest := item(at).val, Many(item, item(at).next, count - 1);
      if rest.Just? {
        assert done + ([v] + rest.val) == (done + [v]) + rest.val;
      }
    }
  }

  // One value and then another
  function Then<A, B>(f: nat -> Parsed<A>, g: nat -> Parsed<B>): nat -> Parsed<(A, B)> {
    (p: nat) => Paired(f(p), g)
  }

  function Paired<A, B>(x: Parsed<A>, g: nat -> Parsed<B>): Parsed<(A, B)> {
    match x
    case Nothing => Nothing
    case Just(a, q) => match g(q) case Nothing => Nothing case Just(b, r) => Just((a, b), r)
  }

  // One value and then another, read in a way that depends on the first
  function Depending<A, B>(f: nat -> Parsed<A>, g: A -> (nat -> Parsed<B>)): nat -> Parsed<(A, B)> {
    (p: nat) => match f(p) case Nothing => Nothing case Just(a, q) => Paired(Just(a, q), g(a))
  }

  // How a pair is read, when the parts of it have been
  lemma ThenAt<A, B>(f: nat -> Parsed<A>, g: nat -> Parsed<B>, at: nat, x: Parsed<A>, y: Parsed<B>)
    requires x == f(at) && (x.Just? ==> y == g(x.next))
    ensures Then(f, g)(at) == if x.Nothing? || y.Nothing? then Nothing else Just((x.val, y.val), y.next)
  {
  }

  lemma DependingAt<A, B>(f: nat -> Parsed<A>, g: A -> (nat -> Parsed<B>), at: nat, x: Parsed<A>, y: Parsed<B>)
    requires x == f(at) && (x.Just? ==> y == g(x.val)(x.next))
    ensures Depending(f, g)(at) == if x.Nothing? || y.Nothing? then Nothing else Just((x.val, y.val), y.next)
  {
  }

  lemma ThenReads<A, B>(f: nat -> Parsed<A>, g: nat -> Parsed<B>, d: seq<Byte>, a: seq<Byte>, b: seq<Byte>, x: A, y: B)
    requires Reads(f, d, a, x) && Reads(g, d, b, y)
    ensures Reads(Then(f, g), d, a + b, (x, y))
  {
    forall p: nat | HasAt(d, p, a + b)
      ensures Then(f, g)(p) == Just((x, y), p + |a + b|)
    {
      HasBoth(d, p, a, b);
    }
  }

  lemma ThenFails<A, B>(f: nat -> Parsed<A>, g: nat -> Parsed<B>, d: seq<Byte>, a: seq<Byte>, b: seq<Byte>, x: A)
    requires Fails(f, d, a) || (Reads(f, d, a, x) && Fails(g, d, b))
    ensures Fails(Then(f, g), d, a + b)
  {
    forall p: nat | HasAt(d, p, a + b)
      ensures Then(f, g)(p) == Nothing
    {
      HasBoth(d, p, a, b);
    }
  }

  lemma DependingReads<A, B>(f: nat -> Parsed<A>, g: A -> (nat -> Parsed<B>), d: seq<Byte>, a: seq<Byte>, b: seq<Byte>,
      x: A, y: B)
    requires Reads(f, d, a, x) && Reads(g(x), d, b, y)
    ensures Reads(Depending(f, g), d, a + b, (x, y))
  {
    forall p: nat | HasAt(d, p, a + b)
      ensures Depending(f, g)(p) == Just((x, y), p + |a + b|)
    {
      HasBoth(d, p, a, b);
    }
  }

  lemma DependingFails<A, B>(f: nat -> Parsed<A>, g: A -> (nat -> Parsed<B>), d: seq<Byte>, a: seq<Byte>, b: seq<Byte>,
      x: A)
    requires Reads(f, d, a, x) && Fails(g(x), d, b)
    ensures Fails(Depending(f, g), d, a + b)
  {
    forall p: nat | HasAt(d, p, a + b)
      ensures Depending(f, g)(p) == Nothing
    {
      HasBoth(d, p, a, b);
    }
  }

  // Three in a row, of which the last may fail
  lemma TripleReads<A, B, C>(f: nat -> Parsed<A>, g: nat -> Parsed<B>, h: nat -> Parsed<C>, d: seq<Byte>,
      x: seq<Byte>, y: seq<Byte>, z: seq<Byte>, a: A, b: B, c: C, ok: bool)
    requires Reads(f, d, x, a) && Reads(g, d, y, b) && if ok then Reads(h, d, z, c) else Fails(h, d, z)
    ensures if ok then Reads(Then(f, Then(g, h)), d, x + (y + z), (a, (b, c)))
      else Fails(Then(f, Then(g, h)), d, x + (y + z))
  {
    if ok {
      ThenReads(g, h, d, y, z, b, c);
      ThenReads(f, Then(g, h), d, x, y + z, a, (b, c));
    } else {
      ThenFails(g, h, d, y, z, b);
      ThenFails(f, Then(g, h), d, x, y + z, a);
    }
  }
}
