/** The auto-allocated memory source of core/data_source.c and the typed reads and writes
    on it (core/load_integral.h, core/load_string.c, core/load_version.c). */
module DataSource {

  import opened ByteOrder
  import opened Wire

  datatype Whence = FromStart | FromCurrent | FromEnd

  // The bytes of old with buf put over them at pos, and as much longer as that takes
  function Over(was: seq<Byte>, pos: nat, buf: seq<Byte>): seq<Byte>
    requires pos <= |was|
  {
    was[..pos] + buf + (if pos + |buf| < |was| then was[pos + |buf|..] else [])
  }

  lemma OverTwice(was: seq<Byte>, pos: nat, a: seq<Byte>, b: seq<Byte>)
    requires pos + |a| + |b| <= |was|
    ensures Over(Over(was, pos, a), pos + |a|, b) == Over(was, pos, a + b)
  {
    var first := Over(was, pos, a);
    assert first[..pos + |a|] == was[..pos] + a;
    assert first[pos + |a| + |b|..] == was[pos + |a| + |b|..];
  }

  class CoreSource {
    const host: Order  // the byte order of the machine
    var order: Order
    var debug: bool
    var data: seq<Byte>  // the memory allocated
    var size: nat
    var offs: nat
    var rdLast: nat
    var wrLast: nat
    var rdTotal: nat
    var wrTotal: nat

    // AG_OpenAutoCore
    constructor (host: Order)
      ensures Valid() && data == [] && offs == 0 && !debug && order == BE && this.host == host
    {
      this.host := host;
      order, debug, data, size, offs := BE, false, [], 0, 0;
      rdLast, wrLast, rdTotal, wrTotal := 0, 0, 0, 0;
    }

    ghost predicate Valid()
      reads this
    {
      offs <= size == |data|
    }

    ghost predicate AtEnd()
      reads this
    {
      Valid() && offs == size
    }

    function Settings(): Mode
      reads this
    {
      Mode(debug, CodecOf(order))
    }

    // ---- Memory operations ----

    // CoreAutoWrite always counts what it writes as growth, so the size is that of the
    // memory afterwards if and only if it was appending.
    method CoreAutoWrite(buf: seq<Byte>)
      requires Valid()
      modifies this`data, this`size, this`offs, this`wrLast
      ensures data == Over(old(data), old(offs), buf)
      ensures size == old(size) + |buf| && offs == old(offs) + |buf| && wrLast == |buf|
      ensures Valid() <==> old(offs) == old(size) || buf == []
    {
      if offs + |buf| > size {
        data := data[..offs] + buf;
      } else {
        data := data[..offs] + buf + data[offs + |buf|..];
      }
      size := size + |buf|;
      offs := offs + |buf|;
      wrLast := |buf|;
    }

    // CoreAutoWriteAt.  Behind the end, the memory up to the offset is left as it came: gap.
    method CoreAutoWriteAt(buf: seq<Byte>, pos: int, gap: seq<Byte>) returns (rv: int)
      requires Valid() && |gap| == if pos > size then pos - size else 0
      modifies this`data, this`size, this`wrLast
      ensures rv == if pos < 0 then -1 else 0
      ensures pos < 0 ==> data == old(data) && wrLast == old(wrLast)
      ensures pos >= 0 ==> data == Over(old(data) + gap, pos, buf) && wrLast == |buf|
      ensures Valid()
    {
      if pos < 0 {
        return -1;
      }
      if pos + |buf| > size {
        size := pos + |buf|;
        data := (data + gap)[..pos] + buf;
      } else {
        data := data[..pos] + buf + data[pos + |buf|..];
      }
      wrLast := |buf|;
      return 0;
    }

    method CoreRead(len: nat) returns (rv: int, buf: seq<Byte>)
      requires Valid()
      modifies this`offs, this`rdLast
      ensures Valid() && rv == if old(offs) + len <= size then 0 else -1
      ensures rv == 0 ==> offs == old(offs) + len && buf == data[old(offs)..offs] && rdLast == len
      ensures rv != 0 ==> offs == old(offs) && rdLast == old(rdLast) && buf == []
    {
      if offs + len > size {
        return -1, [];
      }
      buf := data[offs..offs + len];
      rdLast := len;
      offs := offs + len;
      rv := 0;
    }

    // CoreSeek does not go to the exact end.
    method CoreSeek(pos: int, whence: Whence) returns (rv: int)
      requires Valid()
      modifies this`offs
      ensures Valid()
      ensures var to := match whence case FromStart => pos case FromCurrent => old(offs) + pos
        case FromEnd => size - pos;
        if 0 <= to < size then rv == 0 && offs == to else rv == -1 && offs == old(offs)
    {
      var to := match whence case FromStart => pos case FromCurrent => offs + pos case FromEnd => size - pos;
      if to < 0 || to >= size {
        return -1;
      }
      offs := to;
      return 0;
    }

    // ---- AG_Write, AG_WriteAt, AG_Read: all or failure ----

    method Write(buf: seq<Byte>)
      requires AtEnd()
      modifies this`data, this`size, this`offs, this`wrLast, this`wrTotal
      ensures AtEnd() && data == old(data) + buf && wrTotal == old(wrTotal) + |buf|
    {
      CoreAutoWrite(buf);
      wrTotal := wrTotal + wrLast;
    }

    method WriteAt(buf: seq<Byte>, pos: nat)
      requires AtEnd() && pos + |buf| <= size
      modifies this`data, this`size, this`wrLast, this`wrTotal
      ensures AtEnd() && data == Over(old(data), pos, buf) && wrTotal == old(wrTotal) + |buf|
    {
      assert data + [] == data;
      var rv := CoreAutoWriteAt(buf, pos, []);
      wrTotal := wrTotal + wrLast;
    }

    // A failed read adds the length of the last one to the total once more.
    method Read(len: nat) returns (rv: int, buf: seq<Byte>)
      requires Valid()
      modifies this`offs, this`rdLast, this`rdTotal
      ensures Valid() && rv == if old(offs) + len <= size then 0 else -1
      ensures rv == 0 ==> offs == old(offs) + len && buf == data[old(offs)..offs]
      ensures rv != 0 ==> offs == old(offs)
      ensures rdTotal == old(rdTotal) + if rv == 0 then len else old(rdLast)
    {
      rv, buf := CoreRead(len);
      rdTotal := rdTotal + rdLast;
      if rdLast < len {
        rv := -1;
      }
    }

    // ---- Integers and type codes ----

    // The value in memory is swapped if need be, and its bytes are written as they are.
    method WriteWord(v: nat, k: nat)
      requires AtEnd() && (k == 1 || k == 2 || k == 4 || k == 8) && v < Pow256(k)
      modifies this`data, this`size, this`offs, this`wrLast, this`wrTotal
      ensures AtEnd() && data == old(data) + Bytes(order, v, k)
      ensures Weighs(data[|old(data)|..], order, v)
    {
      BytesWeigh(order, v, k);
      HostIndependent(host, order, v, k);
      Write(Bytes(host, Stored(host, order, v, k), k));
    }

    method ReadWord(k: nat) returns (rv: int, v: nat)
      requires Valid() && (k == 1 || k == 2 || k == 4 || k == 8)
      modifies this`offs, this`rdLast, this`rdTotal
      ensures Valid() && rv == if old(offs) + k <= size then 0 else -1
      ensures rv == 0 ==> v == Value(order, data[old(offs)..old(offs) + k]) && offs == old(offs) + k
      ensures rv != 0 ==> v == 0
    {
      var buf;
      rv, buf := Read(k);
      if rv != 0 {
        return -1, 0;
      }
      StoredValue(host, order, buf);
      v := Stored(host, order, Value(host, buf), k);
    }

    method WriteTag(code: nat)
      requires AtEnd() && code < 0x1_0000_0000
      modifies this`data, this`size, this`offs, this`wrLast, this`wrTotal
      ensures AtEnd() && data == old(data) + Tag(Settings(), code)
    {
      if debug {
        assert Pow256(4) == 0x1_0000_0000;
        WriteWord(code, 4);
      }
    }

    method CheckTag(code: nat) returns (ok: bool)
      requires Valid()
      modifies this`offs, this`rdLast, this`rdTotal
      ensures Valid() && ok == TagAt(Settings(), data, old(offs), code)
      ensures ok ==> offs == old(offs) + TagSize(Settings())
    {
      ok := true;
      if debug {
        var rv, v := ReadWord(4);
        ok := rv == 0 && v == code;
      }
    }

    // AG_WriteUint8, 16, 32 and 64, and the Sint and real ones on their bits
    method WriteInt(code: nat, v: nat, k: nat)
      requires AtEnd() && (k == 1 || k == 2 || k == 4 || k == 8) && v < Pow256(k) && code < 0x1_0000_0000
      modifies this`data, this`size, this`offs, this`wrLast, this`wrTotal
      ensures AtEnd() && data == old(data) + IntImage(Settings(), code, v, k)
      ensures debug ==> Weighs(data[|old(data)|..|old(data)| + 4], order, code)
      ensures Weighs(data[|old(data)| + TagSize(Settings())..], order, v)
    {
      hide Weighs;
      ghost var start := data;
      BytesWeigh(order, code, 4);
      WriteTag(code);
      WriteWord(v, k);
      Lists.Assoc(start, Tag(Settings(), code), Bytes(order, v, k));
    }

    // AG_WriteUint32At
    method WriteUint32At(v: nat, pos: nat)
      requires AtEnd() && v < 0x1_0000_0000 && pos + TagSize(Settings()) + 4 <= size
      modifies this`data, this`size, this`wrLast, this`wrTotal
      ensures AtEnd() && data == Over(old(data), pos, IntImage(Settings(), UINT32, v, 4))
      ensures var at := pos + TagSize(Settings()); Weighs(data[at..at + 4], order, v)
    {
      hide Weighs;
      BytesWeigh(order, v, 4);
      assert Pow256(4) == 0x1_0000_0000;
      HostIndependent(host, order, v, 4);
      if debug {
        HostIndependent(host, order, UINT32, 4);
        OverTwice(data, pos, Bytes(order, UINT32, 4), Bytes(order, v, 4));
        WriteAt(Bytes(host, Stored(host, order, UINT32, 4), 4), pos);
        WriteAt(Bytes(host, Stored(host, order, v, 4), 4), pos + 4);
      } else {
        WriteAt(Bytes(host, Stored(host, order, v, 4), 4), pos);
        assert [] + Bytes(order, v, 4) == Bytes(order, v, 4);
      }
    }

    method ReadInt(code: nat, k: nat) returns (p: Parsed<nat>)
      requires Valid() && (k == 1 || k == 2 || k == 4 || k == 8)
      modifies this`offs, this`rdLast, this`rdTotal
      ensures Valid() && p == IntAt(Settings(), data, old(offs), code, k)
      ensures p.Just? ==> offs == p.next
      ensures p.Just? ==> offs == old(offs) + TagSize(Settings()) + k && Weighs(data[offs - k..offs], order, p.val)
      ensures p.Just? && k == 4 ==> var d := data[offs - 4..offs];
        p.val ==
          if order == BE then d[0] as int * 0x100_0000 + d[1] as int * 0x1_0000 + d[2] as int * 0x100 + d[3] as int
          else d[0] as int + d[1] as int * 0x100 + d[2] as int * 0x1_0000 + d[3] as int * 0x100_0000
    {
      hide Weighs, Value;
      var ok := CheckTag(code);
      if !ok {
        return Nothing;
      }
      ghost var at := offs;
      var rv, v := ReadWord(k);
      p := if rv == 0 then Just(v, offs) else Nothing;
      if rv == 0 {
        ValueWeighs(order, data[at..offs]);
        if k == 4 { Value4(order, data[at..offs]); }
      }
    }

    // ---- Strings ----

    // AG_WriteString
    method WriteString(s: Str)
      requires AtEnd() && |s| < 0x1_0000_0000
      modifies this`data, this`size, this`offs, this`wrLast, this`wrTotal
      ensures AtEnd() && data == old(data) + StringImage(Settings(), s)
    {
      ghost var start := data;
      WriteTag(STRING);
      assert Pow256(4) == 0x1_0000_0000;
      WriteWord(|s|, 4);
      if |s| > 0 {
        Write(s);
      }
      Lists.Assoc(start + Tag(Settings(), STRING), Bytes(order, |s|, 4), s);
      Lists.Assoc(start, Tag(Settings(), STRING), Bytes(order, |s|, 4) + s);
    }

    // The characters behind a length; nothing is read for none.
    method ReadChars(n: nat) returns (rv: int, buf: seq<Byte>)
      requires Valid()
      modifies this`offs, this`rdLast, this`rdTotal
      ensures Valid() && rv == if old(offs) + n <= size then 0 else -1
      ensures rv == 0 ==> offs == old(offs) + n && buf == data[old(offs)..offs]
    {
      rv, buf := 0, [];
      if n > 0 {
        rv, buf := Read(n);
      }
    }

    // AG_ReadStringLen
    method ReadString(maxLen: nat) returns (p: Parsed<Str>)
      requires Valid()
      modifies this`offs, this`rdLast, this`rdTotal
      ensures Valid() && p == StringAt(Settings(), data, old(offs), maxLen)
      ensures p.Just? ==> offs == p.next
    {
      hide TagAt, IntAt, CodecOf;
      var ok := CheckTag(STRING);
      if !ok {
        return Nothing;
      }
      var len := ReadInt(UINT32, 4);
      if len.Nothing? || len.val > maxLen {
        return Nothing;
      }
      var rv, buf := ReadChars(len.val);
      p := if rv == 0 then Just(buf, offs) else Nothing;
    }

    // AG_CopyString
    method CopyString(dstSize: nat) returns (p: Parsed<(Str, nat)>)
      requires Valid() && dstSize > 0
      modifies this`offs, this`rdLast, this`rdTotal
      ensures Valid() && p == CopyAt(Settings(), data, old(offs), dstSize)
      ensures p.Just? ==> offs == p.next
    {
      hide TagAt;
      var ok := CheckTag(STRING);
      if !ok {
        return Nothing;
      }
      var rv, len := ReadWord(4);
      if rv != 0 {
        return Nothing;
      }
      var rvLen, n := len, len;
      if len > dstSize - 1 {
        rvLen, n := len + 1, dstSize - 1;
      }
      var buf;
      rv, buf := ReadChars(n);
      p := if rv == 0 then Just((buf, rvLen), offs) else Nothing;
    }

    // ---- Versions ----

    // AG_WriteVersion: the field is filled, then the name copied over it.
    method WriteVersion(name: Str, ver: Version)
      requires AtEnd() && ver.major < 0x1_0000_0000 && ver.minor < 0x1_0000_0000
      modifies this`data, this`size, this`offs, this`wrLast, this`wrTotal
      ensures AtEnd() && data == old(data) + VersionImage(Settings(), name, ver)
    {
      ghost var start := data;
      var nbuf := FillName(name);
      Write(nbuf);
      assert Pow256(4) == 0x1_0000_0000;
      WriteInt(UINT32, ver.major, 4);
      WriteInt(UINT32, ver.minor, 4);
      ghost var a, b := IntImage(Settings(), UINT32, ver.major, 4), IntImage(Settings(), UINT32, ver.minor, 4);
      Lists.Assoc(start + nbuf, a, b);
      Lists.Assoc(start, nbuf, a + b);
    }

    static method Fill() returns (buf: array<Byte>)
      ensures fresh(buf) && buf.Length == 48 && forall k :: 0 <= k < 48 ==> buf[k] == FillByte(k)
    {
      buf := new Byte[48];
      var i := 0;
      while i < 48
        invariant i <= 48 && i % 4 == 0
        invariant forall k :: 0 <= k < i ==> buf[k] == FillByte(k)
      {
        buf[i], buf[i + 1], buf[i + 2], buf[i + 3] := 97, 103, 97, 114;
        i := i + 4;
      }
    }

    static method FillName(name: Str) returns (nbuf: seq<Byte>)
      ensures nbuf == NameField(name)
    {
      var buf := Fill();
      var i := 0;
      while i < 47 && i < |name|
        invariant i <= 47 && i <= |name|
        invariant forall k :: 0 <= k < i ==> buf[k] == name[k]
        invariant forall k :: i <= k < 48 ==> buf[k] == FillByte(k)
      {
        buf[i] := name[i];
        i := i + 1;
      }
      buf[i] := 0;
      nbuf := buf[..];
    }

    // AG_ReadVersion
    method ReadVersion(name: Str, major: nat) returns (p: Parsed<Version>)
      requires Valid()
      modifies this`offs, this`rdLast, this`rdTotal
      ensures Valid() && p == VersionAt(Settings(), data, old(offs), name, major)
      ensures p.Just? ==> offs == p.next
    {
      var rv, nbuf := Read(NAME_FIELD);
      if rv != 0 || !(name <= nbuf) {
        return Nothing;
      }
      var x := ReadInt(UINT32, 4);
      if x.Nothing? {
        return Nothing;
      }
      var y := ReadInt(UINT32, 4);
      if y.Nothing? || x.val != major {
        return Nothing;
      }
      p := Just(Version(x.val, y.val), offs);
    }
  }
}
