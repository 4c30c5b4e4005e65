/** The table and the tree of the registered classes (core/class.c).  A fatal error, which ends
    the program, is the result false. */
module ClassTable {

  import opened Options
  import opened Lists
  import opened CString
  import opened ClassPattern
  import opened ClassSpec
  import HashTable

  const TYPE_MAX := 48  // AG_OBJECT_TYPE_MAX
  const ROOT := "AG_Object"

  // AG_ObjectClass
  class ObjectClass {
    var hier: string
    var libs: string
    var name: string
    var super: ObjectClass?
    var sub: seq<ObjectClass>  // the direct subclasses

    constructor (hier: string)
      ensures this.hier == hier && super == null && sub == []
    {
      this.hier, libs, name, super, sub := hier, [], [], null, [];
    }

    // InitClass
    method Init(h: string, l: string)
      modifies this`hier, this`libs, this`name, this`sub
      ensures hier == Take(h, HIER_MAX - 1) && libs == Take(l, LIBS_MAX - 1) && name == Take(LastName(h), TYPE_MAX - 1)
      ensures sub == [] && Names(name, h, 48)
    {
      LastNameIs(h, 48);
      hier, libs, name, sub := Take(h, HIER_MAX - 1), Take(l, LIBS_MAX - 1), Take(LastName(h), TYPE_MAX - 1), [];
    }
  }

  // The hierarchy above
  function Up(h: string): string {
    CutLast(h, ':')
  }

  // The specifications that AG_LookupClass takes for the root without a search
  predicate IsRoot(s: string) {
    s == [] || s == "Agar(Object)" || s == ROOT
  }

  // The position of the first colon from k on, or the end
  function NextColon(h: string, k: nat): (r: nat)
    requires k <= |h|
    ensures k <= r <= |h| && (r < |h| ==> h[r] == ':') && forall i :: k <= i < r ==> h[i] != ':'
    decreases |h| - k
  {
    if k == |h| || h[k] == ':' then k else NextColon(h, k + 1)
  }

  function Colons(h: string): nat {
    if h == [] then 0 else (if h[|h| - 1] == ':' then 1 else 0) + Colons(h[..|h| - 1])
  }

  lemma {:induction false} UpTo(h: string, k: nat)
    requires k < |h| && h[k] == ':' && forall i :: k < i < |h| ==> h[i] != ':'
    ensures Up(h) == h[..k] && ':' in h
  {
    if k < |h| - 1 {
      UpTo(h[..|h| - 1], k);
      assert h[..|h| - 1][..k] == h[..k];
    }
  }

  lemma OneMoreChar(h: string, c: nat)
    requires c <= |h|
    ensures c < |h| ==> Colons(h[..c + 1]) == (if h[c] == ':' then 1 else 0) + Colons(h[..c])
  {
    if c < |h| { assert h[..c + 1][..c] == h[..c]; }
  }

  // The other name of the root is not a hierarchy.
  lemma NotFlat(spaces: seq<Namespace>)
    ensures !Flat(spaces, "Agar(Object)")
  {
    GroupNotFlat(spaces, "Agar", "Object");
    assert "Agar" + "(" + "Object" + ")" == "Agar(Object)";
  }

  lemma GroupNotFlat(spaces: seq<Namespace>, name: string, body: string)
    requires Word(name) && name != [] && NoParens(body) && body != []
    ensures !Flat(spaces, name + "(" + body + ")")
  {
    var s := name + "(" + body + ")";
    assert s[0..0 + |name| + |body| + 2] == s;
    RunNone(spaces, s);
    RunGroup(spaces, s, 0, name, body, false, []);
  }

  class Registry {
    const tbl: HashTable.Tbl<ObjectClass>  // agClassTbl
    const root: ObjectClass                // agClassTree
    const spaces: seq<Namespace>           // agNamespaceTbl
    ghost var all: set<ObjectClass>        // the classes that are registered

    // The class a specification finds
    ghost function Found(s: string): (r: Option<ObjectClass>)
      requires tbl.Valid()
      reads tbl.buckets
    {
      if IsRoot(s) then Some(root)
      else
        var p := Parse(spaces, s);
        if !p.Expansion? || tbl.Of(p.hier) == [] then None else Some(tbl.Of(p.hier)[0])
    }

    // The superclass of a class that is registered with the hierarchy h
    ghost function SuperOf(h: string): Option<ObjectClass>
      requires tbl.Valid()
      reads tbl.buckets
    {
      if ':' in h then Found(Up(h)) else Some(root)
    }

    // The table leads from each hierarchy to its class and to nothing else; the super pointer
    // leads to the class above, and a class is once in the list of that class and in no other.
    ghost predicate Valid()
      reads this, tbl.buckets, all
    {
      && tbl.Valid() && !tbl.duplicates && PlainSpaces(spaces)
      && root in all && root.hier == ROOT
      && Entered() && Placed() && Listed()
    }

    ghost predicate Entered()
      requires tbl.Valid()
      reads this, tbl.buckets, all
    {
      && (forall c {:trigger InTable(c)} :: c in all ==> InTable(c))
      && (forall h {:trigger Leads(h)} :: Leads(h))
    }

    ghost predicate InTable(c: ObjectClass)
      requires tbl.Valid()
      reads tbl.buckets, c
    {
      tbl.Of(c.hier) == [c]
    }

    ghost predicate Leads(h: string)
      requires tbl.Valid()
      reads this, tbl.buckets, all
    {
      tbl.Of(h) != [] ==> tbl.Of(h)[0] in all && tbl.Of(h)[0].hier == h
    }

    ghost predicate Placed()
      requires tbl.Valid()
      reads this, tbl.buckets, all
    {
      forall c {:trigger IsPlaced(c)} :: c in all && c != root ==> IsPlaced(c)
    }

    ghost predicate IsPlaced(c: ObjectClass)
      requires tbl.Valid()
      reads this, tbl.buckets, c
    {
      Flat(spaces, c.hier) && |c.hier| < HIER_MAX && NoNul(c.hier) && c.super != null && c.super in all &&
        SuperOf(c.hier) == Some(c.super as ObjectClass)
    }

    ghost predicate Listed()
      reads this, all
    {
      forall c {:trigger IsListed(c)} :: c in all ==> IsListed(c)
    }

    ghost predicate IsListed(c: ObjectClass)
      reads this, all, c
    {
      Distinct(c.sub) && (forall d :: d in c.sub ==> d in all) &&
        (forall d :: d in all ==> (d in c.sub <==> d != root && d.super == c))
    }

    // AG_InitClassTbl
    constructor (spaces: seq<Namespace>)
      requires PlainSpaces(spaces)
      ensures Valid() && all == {root} && root.sub == [] && this.spaces == spaces
      ensures fresh(root) && fresh(tbl) && fresh(tbl.buckets)
    {
      hide Parse, Flat, HashTable.Summed, HashTable.Values;
      var root := new ObjectClass([]);
      root.Init(ROOT, "");
      var tbl := new HashTable.Tbl(256, false);
      var _ := tbl.Insert(root.hier, root);
      this.root, this.tbl, this.spaces, all := root, tbl, spaces, {root};
      new;
      OneClass();
    }

    lemma OneClass()
      requires tbl.Valid() && !tbl.duplicates && PlainSpaces(spaces) && all == {root} && root.hier == ROOT
      requires root.sub == []
      requires forall h :: tbl.Of(h) == if h == ROOT then [root] else []
      ensures Valid()
    {
      hide Parse, Flat;
      assert InTable(root) && IsListed(root);
      forall h
        ensures Leads(h)
      {
        assert h != ROOT ==> tbl.Of(h) == [];
      }
    }

    lemma RootFound()
      requires Valid()
      ensures Found("") == Found("Agar(Object)") == Found("AG_Object") == Some(root)
    {
    }

    // AG_LookupClass
    method LookupClass(inSpec: string) returns (r: Option<ObjectClass>)
      requires Valid() && NoNul(inSpec)
      ensures r == Found(inSpec)
      ensures r.Some? ==> r.value in all
    {
      if IsRoot(inSpec) {
        return Some(root);
      }
      var cs := ParseClassSpec(spaces, inSpec);
      if !cs.Expansion? {
        return None;
      }
      var v := tbl.Lookup(cs.hier);
      assert Leads(cs.hier);
      r := if v.None? then None else Some(v.value);
    }

    // AG_RegisterClass, of a class that is not registered
    method Register(cl: ObjectClass) returns (ok: bool)
      requires Valid() && cl !in all && NoNul(cl.hier)
      modifies this`all, cl, tbl.buckets, all`sub
      ensures var p := Parse(spaces, old(cl.hier));
        ok == (p.Expansion? && old(SuperOf(p.hier)).Some? && old(tbl.Of(p.hier)) == [])
      ensures ok ==> Valid() && all == old(all) + {cl} && cl.super != null
      ensures ok ==> cl.libs == Parse(spaces, old(cl.hier)).libs && Names(cl.name, cl.hier, 48)
      ensures ok ==> var h := Parse(spaces, old(cl.hier)).hier;
        cl.hier == h && old(SuperOf(h)) == Some(cl.super as ObjectClass)
      ensures ok ==> forall c :: c in old(all) ==> c.sub == old(c.sub) + if c == cl.super then [cl] else []
    {
      hide Parse, Flat, Names, PlainSpaces;
      ok := Prepare(cl);
      if !ok {
        return;
      }
      var super := FindSuper(cl.hier);
      if super.None? {
        return false;
      }
      ok := Enter(cl, super.value);
    }

    // The fields that the expanded specification gives
    method Prepare(cl: ObjectClass) returns (ok: bool)
      requires Valid() && cl !in all && NoNul(cl.hier)
      modifies cl`hier, cl`libs, cl`name, cl`sub
      ensures Valid()
      ensures var p := Parse(spaces, old(cl.hier));
        ok == p.Expansion? && (ok ==> cl.hier == p.hier && cl.libs == p.libs && cl.sub == [])
      ensures ok ==> Flat(spaces, cl.hier) && |cl.hier| < HIER_MAX && NoNul(cl.hier) && Names(cl.name, cl.hier, 48)
    {
      hide Parse, Flat, Names, LastName;
      var cs := ParseClassSpec(spaces, cl.hier);
      if !cs.Expansion? {
        return false;
      }
      ResultFlat(spaces, cl.hier);
      LibsFit(spaces, cl.hier);
      cl.Init(cs.hier, cs.libs);
      ok := true;
    }

    // The class to put a class of this hierarchy under
    method FindSuper(hier: string) returns (r: Option<ObjectClass>)
      requires Valid() && NoNul(hier)
      ensures r == SuperOf(hier)
      ensures r.Some? ==> r.value in all
    {
      if ':' in hier {
        r := LookupClass(Up(hier));
      } else {
        r := Some(root);
      }
    }

    // Into the tree and the table
    method Enter(cl: ObjectClass, super: ObjectClass) returns (ok: bool)
      requires Valid() && cl !in all && Flat(spaces, cl.hier) && |cl.hier| < HIER_MAX && NoNul(cl.hier) && cl.sub == []
      requires super in all && SuperOf(cl.hier) == Some(super)
      modifies this`all, cl`super, super`sub, tbl.buckets
      ensures ok == (old(tbl.Of(cl.hier)) == [])
      ensures ok ==> Valid() && all == old(all) + {cl} && cl.super == super && super.sub == old(super.sub) + [cl]
    {
      hide Parse, Flat;
      cl.super := super;
      super.sub := super.sub + [cl];
      var rc := tbl.Insert(cl.hier, cl);
      if rc == -1 {
        return false;
      }
      all := all + {cl};
      ok := true;
      StillEntered(cl);
      StillPlaced(cl);
      StillListed(cl);
    }

    twostate predicate Added(cl: ObjectClass)
      reads this, tbl.buckets, cl, all
    {
      && old(tbl.Valid()) && tbl.Valid() && cl !in old(all) && all == old(all) + {cl}
      && (forall k :: tbl.Of(k) == old(tbl.Of(k)) + if k == cl.hier then [cl] else [])
      && old(tbl.Of(cl.hier)) == [] && (forall c :: c in all ==> c.hier == old(c.hier))
      && (forall c :: c in old(all) ==> c.super == old(c.super))
    }

    twostate lemma StillEntered(cl: ObjectClass)
      requires Added(cl) && old(Entered())
      ensures Entered()
    {
      forall c | c in all
        ensures InTable(c)
      {
        assert c != cl ==> old(InTable(c));
      }
      forall h
        ensures Leads(h)
      {
        assert old(Leads(h));
      }
    }

    // A specification that finds a class goes on finding it.
    twostate lemma StillFound(cl: ObjectClass)
      requires Added(cl)
      ensures forall s {:trigger Found(s)} :: old(Found(s)).Some? ==> Found(s) == old(Found(s))
    {
    }

    twostate lemma StillPlaced(cl: ObjectClass)
      requires Added(cl) && old(Placed()) && root in old(all)
      requires Flat(spaces, cl.hier) && |cl.hier| < HIER_MAX && NoNul(cl.hier)
      requires cl.super != null && cl.super in old(all) && old(SuperOf(cl.hier)) == Some(cl.super as ObjectClass)
      ensures Placed()
    {
      hide Flat, Found;
      StillFound(cl);
      forall c | c in all && c != root
        ensures IsPlaced(c)
      {
        assert c != cl ==> old(IsPlaced(c));
      }
    }

    twostate lemma StillListed(cl: ObjectClass)
      requires old(tbl.Valid()) && old(Placed()) && old(Listed()) && root in old(all) && cl !in old(all)
      requires all == old(all) + {cl}
      requires cl.super in old(all) && cl.sub == []
      requires forall c :: c in old(all) ==>
        c.super == old(c.super) && c.sub == old(c.sub) + if c == cl.super then [cl] else []
      ensures Listed()
    {
      forall c | c in all
        ensures IsListed(c)
      {
        if c == cl {
          forall d | d in all && d != root
            ensures d.super != cl
          {
            assert d != cl ==> old(IsPlaced(d));
          }
        } else {
          assert old(IsListed(c));
          if c == cl.super { Appended(old(c.sub), cl); }
        }
      }
    }

    // AG_UnregisterClass.  What holds of all classes goes on holding if and only if the class
    // has no subclasses, as their super pointers are left behind.
    method Unregister(cl: ObjectClass)
      requires Valid() && cl != root && (cl in all || tbl.Of(cl.hier) == [])
      modifies this`all, cl`super, all`sub, tbl.buckets
      ensures tbl.Valid() && (Valid() <==> cl !in old(all) || cl.sub == [])
      ensures cl !in old(all) ==>
        all == old(all) && cl.super == old(cl.super) && forall c :: c in all ==> c.sub == old(c.sub)
      ensures cl in old(all) ==> all == old(all) - {cl} && cl.super == null && tbl.Of(cl.hier) == []
      ensures cl in old(all) ==> forall c :: c in old(all) ==> c.sub == Dropped(old(c.sub), cl)
      ensures forall k :: k != cl.hier || cl !in old(all) ==> tbl.Of(k) == old(tbl.Of(k))
    {
      hide Parse, Flat, Dropped;
      assert Leads(cl.hier) && (cl in all ==> InTable(cl));
      var h := tbl.Hash(cl.hier);
      var there := tbl.ExistsHash(h, cl.hier);
      if there {
        TakeOut(cl, h);
        StillKept(cl);
      }
    }

    // Out of the tree and the table
    method TakeOut(cl: ObjectClass, h: nat)
      requires Valid() && cl != root && cl in all && h == HashTable.Summed(cl.hier, 0) % tbl.buckets.Length
      modifies this`all, cl`super, all`sub, tbl.buckets
      ensures Removed(cl) && cl.super == null
    {
      hide Parse, Flat, Dropped;
      assert IsPlaced(cl) && InTable(cl);
      TakeFrom(cl.super, cl);
      cl.super := null;
      var _ := tbl.DeleteHash(h, cl.hier);
      all := all - {cl};
    }

    method TakeFrom(super: ObjectClass, cl: ObjectClass)
      requires super in all && cl in all && cl != root && Listed() && cl.super == super
      modifies super`sub
      ensures forall c :: c in all ==> c.sub == Dropped(old(c.sub), cl)
    {
      super.sub := Dropped(super.sub, cl);
      forall c | c in all
        ensures c.sub == Dropped(old(c.sub), cl)
      {
        assert old(IsListed(c));
      }
    }

    twostate lemma StillKept(cl: ObjectClass)
      requires Removed(cl) && old(Valid())
      ensures Valid() <==> cl.sub == []
    {
      hide Parse, Flat, Dropped;
      if cl.sub == [] {
        LeftEntered(cl);
        LeftPlaced(cl);
        LeftListed(cl);
      } else {
        LeftBehind(cl);
      }
    }

    twostate predicate Removed(cl: ObjectClass)
      reads this, tbl.buckets, cl, all
    {
      && old(tbl.Valid()) && tbl.Valid() && cl in old(all) && all == old(all) - {cl} && cl != root
      && old(InTable(cl)) && cl.hier == old(cl.hier)
      && (forall k :: tbl.Of(k) == if k == cl.hier then [] else old(tbl.Of(k)))
      && (forall c :: c in all ==> c.hier == old(c.hier) && c.super == old(c.super))
      && (forall c :: c in all ==> c.sub == Dropped(old(c.sub), cl)) && cl.sub == Dropped(old(cl.sub), cl)
    }

    twostate lemma LeftEntered(cl: ObjectClass)
      requires Removed(cl) && old(Entered())
      ensures Entered()
    {
      forall c | c in all
        ensures InTable(c)
      {
        assert old(InTable(c));
      }
      forall h
        ensures Leads(h)
      {
        assert old(Leads(h));
      }
    }

    twostate lemma LeftPlaced(cl: ObjectClass)
      requires Removed(cl) && old(Placed()) && old(Listed()) && cl.sub == []
      ensures Placed()
    {
      hide Parse, Flat;
      assert old(IsListed(cl));
      forall c | c in all && c != root
        ensures IsPlaced(c)
      {
        assert old(IsPlaced(c));
        assert c.super != cl;
      }
    }

    twostate lemma LeftListed(cl: ObjectClass)
      requires Removed(cl) && old(Listed())
      ensures Listed()
    {
      forall c | c in all
        ensures IsListed(c)
      {
        assert old(IsListed(c));
      }
    }

    twostate lemma LeftBehind(cl: ObjectClass)
      requires Removed(cl) && old(Listed()) && cl.sub != []
      ensures !Placed()
    {
      hide Parse, Flat;
      assert old(IsListed(cl));
      var d := cl.sub[0];
      assert d in cl.sub && d != cl && d in old(all);
      assert !IsPlaced(d);
    }

    // ---- The classes above a class ----

    // A hierarchy with a colon finds the class of that hierarchy.
    lemma FoundNamed(s: string)
      requires Valid() && Flat(spaces, s) && |s| < HIER_MAX && '@' !in s && Found(s).Some?
      ensures var c := Found(s).value; c in all && (IsRoot(s) || c.hier == s) && (':' in s ==> c != root)
    {
      hide Parse, Flat;
      FlatParses(spaces, s);
      assert Leads(s);
    }

    lemma FlatClass(c: ObjectClass)
      requires Valid() && c in all
      ensures Flat(spaces, c.hier) && |c.hier| < HIER_MAX && NoNul(c.hier)
    {
      if c == root {
        PlainRuns(spaces, ROOT, |ROOT|);
      } else {
        assert IsPlaced(c);
      }
    }

    // A class is found by its hierarchy, if and only if there is no '@' in it.
    lemma FindsItself(c: ObjectClass)
      requires Valid() && c in all && c.hier != []
      ensures Found(c.hier) == Some(c) <==> '@' !in c.hier
    {
      hide Parse, Flat, PlainSpaces, Placed, Listed, CutLast;
      FlatClass(c);
      FlatParses(spaces, c.hier);
      NotFlat(spaces);
      assert InTable(c) && InTable(root) && Leads(Parse(spaces, c.hier).hier);
    }

    // The front of the hierarchy up to a colon finds the super class of what the front up to
    // the next colon finds.
    lemma {:induction false} Above(c: ObjectClass, k: nat)
      requires Valid() && c in all && c.hier != [] && '@' !in c.hier
      requires k == |c.hier| || (k < |c.hier| && c.hier[k] == ':')
      ensures Found(c.hier[..k]).Some? && Found(c.hier[..k]).value in all
      ensures k < |c.hier| ==>
        var n := Found(c.hier[..NextColon(c.hier, k + 1)]); n.Some? && n.value.super == Found(c.hier[..k]).value
      decreases |c.hier| - k
    {
      hide Parse, Flat;
      var h := c.hier;
      FlatClass(c);
      if k == |h| {
        assert h[..k] == h;
        FindsItself(c);
      } else {
        var next := NextColon(h, k + 1);
        Above(c, next);
        PrefixFlat(spaces, h, next);
        FoundNamed(h[..next]);
        assert h[..next][k] == ':' && h[..next][..k] == h[..k];
        UpTo(h[..next], k);
        assert IsPlaced(Found(h[..next]).value);
      }
    }

    // From the base class to c, each the super class of the next
    ghost predicate IsChain(chain: seq<ObjectClass>, c: ObjectClass)
      reads root, set x | x in chain
    {
      && chain != [] && chain[|chain| - 1] == c
      && (forall j {:trigger chain[j]} :: 0 < j < |chain| ==> chain[j].super == chain[j - 1])
      && (chain[0] == root || chain[0].super == root)
    }

    // The class found by the front of the hierarchy that ends at k, put behind those found before
    lemma Longer(c: ObjectClass, chain: seq<ObjectClass>, last: nat, k: nat)
      requires Valid() && c in all && c.hier != [] && '@' !in c.hier
      requires k <= |c.hier| && (k < |c.hier| ==> c.hier[k] == ':')
      requires chain == [] ==> forall i :: 0 <= i < k ==> c.hier[i] != ':'
      requires chain != [] ==> last < k && c.hier[last] == ':' && forall i :: last < i < k ==> c.hier[i] != ':'
      requires chain != [] ==> Found(c.hier[..last]) == Some(chain[|chain| - 1]) && IsChain(chain, chain[|chain| - 1])
      ensures Found(c.hier[..k]).Some? && IsChain(chain + [Found(c.hier[..k]).value], Found(c.hier[..k]).value)
    {
      Above(c, k);
      var h, a := c.hier, Found(c.hier[..k]).value;
      if chain == [] {
        FlatClass(c);
        PrefixFlat(spaces, h, k);
        FoundNamed(h[..k]);
        assert a != root ==> IsPlaced(a) && a.hier == h[..k];
      } else {
        Above(c, last);
        assert NextColon(h, last + 1) == k;
      }
    }

    // AG_ObjectGetInheritHier, of an object of class cls
    method GetInheritHier(cls: ObjectClass) returns (rc: int, hier: seq<ObjectClass>, nHier: nat)
      requires Valid() && cls in all
      ensures cls.hier == [] ==> rc == 0 && nHier == 0
      ensures cls.hier != [] ==> (rc == 0 && IsChain(hier, cls) <==> '@' !in cls.hier)
      ensures rc == 0 ==> |hier| == nHier == if cls.hier == [] then 0 else 1 + Colons(cls.hier)
    {
      hide Parse, Flat, Found, IsChain, IsPlaced, IsListed;
      rc, hier, nHier := 0, [], 0;
      var cname := cls.hier;
      FlatClass(cls);
      if cname == [] {
        return;
      }
      nHier := CountColons(cname);
      nHier := nHier + 1;
      FindsItself(cls);
      var c := 0;
      ghost var last := 0;
      while true
        invariant c <= |cname| && |hier| == Colons(cname[..c]) && rc == 0
        invariant hier == [] ==> forall i :: 0 <= i < c ==> cname[i] != ':'
        invariant hier != [] ==> last < c && cname[last] == ':' && forall i :: last < i < c ==> cname[i] != ':'
        invariant hier != [] && '@' !in cname ==>
          Found(cname[..last]) == Some(hier[|hier| - 1]) && IsChain(hier, hier[|hier| - 1])
        decreases |cname| - c
      {
        OneMoreChar(cname, c);
        if c < |cname| && cname[c] != ':' {
          c := c + 1;
          continue;
        }
        if '@' !in cname { Longer(cls, hier, last, c); }
        var cl := LookupClass(cname[..c]);
        if cl.None? {
          return -1, [], nHier;
        }
        hier := hier + [cl.value];
        if c == |cname| {
          assert cname[..c] == cname;
          if '@' in cname { NotChain(hier, cls); }
          return;
        }
        last := c;
        c := c + 1;
      }
    }

    lemma NotChain(chain: seq<ObjectClass>, c: ObjectClass)
      requires chain != [] && chain[|chain| - 1] != c
      ensures !IsChain(chain, c)
    {
    }

    method CountColons(s: string) returns (n: nat)
      ensures n == Colons(s)
    {
      n := 0;
      for c := 0 to |s|
        invariant n == Colons(s[..c])
      {
        OneMoreChar(s, c);
        if s[c] == ':' {
          n := n + 1;
        }
      }
      assert s[..|s|] == s;
    }
  }
}
