/** The object tree of core/object.c: attaching and detaching, absolute
    paths and their resolution. */
module VfsPath {

  import opened Lists
  import opened CString

  class Node {
    var name: string
    var parent: Node?
    var root: Node
    var children: seq<Node>
    var deps: seq<Dep>
    var persistent: bool

    // AG_ObjectInit: an object starts as the root of its own tree.
    constructor (name: string)
      ensures this.name == name && parent == null && root == this && children == [] && deps == [] && persistent
    {
      this.name, parent, root, children, deps, persistent := name, null, this, [], [], true;
    }
  }

  function ChildNamed(s: seq<Node>, name: string): (c: Node?)
    reads s`name
    ensures c != null ==> c in s && c.name == name
    ensures c == null ==> forall x :: x in s ==> x.name != name
  {
    if s == [] then null else if s[0].name == name then s[0] else ChildNamed(s[1..], name)
  }

  ghost predicate DistinctNames(s: seq<Node>)
    reads s`name
  {
    forall i, j :: 0 <= i < j < |s| ==> s[i].name != s[j].name
  }

  lemma DistinctAppend(s: seq<Node>, c: Node)
    ensures DistinctNames(s + [c]) <==> DistinctNames(s) && ChildNamed(s, c.name) == null
  {
    var t := s + [c];
    assert t[|s|] == c;
    forall i | 0 <= i < |s|
      ensures t[i] == s[i] && (DistinctNames(t) ==> s[i].name != c.name)
    {
    }
  }

  lemma {:induction false} DistinctDropped(s: seq<Node>, c: Node)
    requires DistinctNames(s)
    ensures DistinctNames(Dropped(s, c))
  {
    if s != [] && s[0] != c {
      DistinctDropped(s[1..], c);
      var r := Dropped(s[1..], c);
      forall j | 0 <= j < |r|
        ensures s[0].name != r[j].name
      {
        assert r[j] in s[1..];
      }
    }
  }

  // The part of a path before its first separator, and what follows it
  function Cut(s: string): (r: string) {
    if s == [] || s[0] == '/' then [] else [s[0]] + Cut(s[1..])
  }

  function Tail(s: string): (r: string)
    ensures '/' in s ==> |r| < |s|
  {
    if s == [] then [] else if s[0] == '/' then s[1..] else Tail(s[1..])
  }

  lemma {:induction false} CutAt(a: string, b: string)
    requires '/' !in a
    ensures Cut(a + "/" + b) == a && Tail(a + "/" + b) == b && '/' in a + "/" + b
  {
    var s := a + "/" + b;
    assert s[|a|] == '/';
    if a != [] {
      assert s[0] == a[0] && s[1..] == a[1..] + "/" + b;
      CutAt(a[1..], b);
    }
  }

  lemma {:induction false} CutWhole(a: string)
    requires '/' !in a
    ensures Cut(a) == a
  {
    if a != [] {
      CutWhole(a[1..]);
    }
  }

  class Forest {
    ghost var nodes: set<Node>
    ghost var depth: map<Node, nat>

    constructor ()
      ensures Linked() && Named() && Rooted() && nodes == {}
    {
      nodes, depth := {}, map[];
    }

    // Parents and children agree, and there are no cycles.
    ghost predicate Linked()
      reads this, nodes`parent, nodes`children
    {
      && nodes <= depth.Keys
      && (forall n {:trigger Distinct(n.children)} :: n in nodes ==> Distinct(n.children))
      && (forall n {:trigger n.parent} :: n in nodes && n.parent != null ==>
        n.parent in nodes && n in n.parent.children && depth[n.parent] < depth[n])
      && (forall n, c {:trigger c in n.children} :: n in nodes && c in n.children ==> c in nodes && c.parent == n)
    }

    // Names have no separator, fit their field, and differ among siblings.
    ghost predicate Named()
      reads this, nodes`name, nodes`children, nodes`parent
      requires Linked()
    {
      && (forall n :: n in nodes ==> '/' !in n.name && NoNul(n.name) && |n.name| < 128)
      && (forall n :: n in nodes ==> assert forall c :: c in n.children ==> c in nodes; DistinctNames(n.children))
    }

    // The root pointers of a tree all name its root.
    ghost predicate Rooted()
      reads this, nodes`parent, nodes`root, nodes`children
      requires Linked()
    {
      forall n {:trigger n.root} :: n in nodes ==> n.root == if n.parent == null then n else n.parent.root
    }

    // n is top or somewhere below it.
    ghost predicate Under(n: Node, top: Node)
      requires Linked() && n in nodes
      reads this, nodes`parent, nodes`children
      decreases depth[n]
    {
      n == top || (n.parent != null && Under(n.parent, top))
    }

    lemma {:induction false} UnderRoot(n: Node, top: Node)
      requires Linked() && Rooted() && n in nodes && top in nodes && top.parent == null && Under(n, top)
      ensures n.root == top
      decreases depth[n]
    {
      if n != top {
        UnderRoot(n.parent, top);
      }
    }

    lemma {:induction false} RootAbove(n: Node)
      requires Linked() && Rooted() && n in nodes
      ensures n.root in nodes && n.root.parent == null && Under(n, n.root)
      ensures n.parent != null ==> depth[n.root] < depth[n]
      decreases depth[n]
    {
      if n.parent != null {
        RootAbove(n.parent);
      }
    }

    // ---- Attaching and detaching ----

    // AG_ObjectAttach, without attach function or naming on attach.  Only the child's own
    // root pointer is set, so the root pointers stay right if and only if the child has no
    // children of its own.
    method Attach(parent: Node, chld: Node)
      requires Linked() && Rooted() && parent in nodes && chld in nodes
      requires chld.parent == null && parent.root != chld
      modifies this`depth, parent`children, chld`parent, chld`root
      ensures Linked() && chld.parent == parent && parent.children == old(parent.children) + [chld]
      ensures Rooted() <==> old(chld.children) == []
      ensures old(Named()) ==> (Named() <==> ChildNamed(old(parent.children), chld.name) == null)
    {
      hide Linked, Rooted, DistinctNames, ChildNamed;
      DistinctAppend(parent.children, chld);
      AttachTo(parent, chld);
    }

    method AttachTo(parent: Node, chld: Node)
      requires Linked() && Rooted() && parent in nodes && chld in nodes
      requires chld.parent == null && parent.root != chld
      modifies this`depth, parent`children, chld`parent, chld`root
      ensures Linked() && chld.parent == parent && parent.children == old(parent.children) + [chld]
      ensures Rooted() <==> old(chld.children) == []
    {
      RootAbove(parent);
      Link(parent, chld);
      chld.root := parent.root;
      if chld.children != [] {
        assert chld.children[0] in chld.children && chld.children[0].root == chld;
      } else {
        assert forall n :: n in nodes && n.parent == chld ==> n in chld.children;
      }
    }

    // The two ends of the link
    method Link(parent: Node, chld: Node)
      requires Linked() && Rooted() && parent in nodes && chld in nodes
      requires chld.parent == null && parent.root != chld
      modifies this`depth, parent`children, chld`parent
      ensures Linked() && chld.parent == parent && parent.children == old(parent.children) + [chld]
    {
      hide Rooted, Under, Distinct;
      Deepen(parent, chld);
      var list := parent.children + [chld];
      assert chld !in parent.children;
      Appended(parent.children, chld);
      chld.parent := parent;
      parent.children := list;
      forall n, c | n in nodes && c in n.children
        ensures c in nodes && c.parent == n
      {
        assert n == parent ==> c in list;
        assert n != parent ==> c != chld;
      }
    }

    // The measure for what is under chld, raised above that of the parent
    ghost method Deepen(parent: Node, chld: Node)
      requires Linked() && Rooted() && parent in nodes && chld in nodes
      requires chld.parent == null && parent.root != chld
      modifies this`depth
      ensures Linked() && Rooted() && depth[parent] < depth[chld]
    {
      if Under(parent, chld) {
        UnderRoot(parent, chld);
      }
      depth := map n | n in nodes :: if Under(n, chld) then depth[n] + depth[parent] + 1 else depth[n];
    }

    // AG_ObjectDetach, without detach function; the child's timers have been cancelled
    method Detach(chld: Node)
      requires Linked() && Rooted() && chld in nodes && chld.parent != null
      modifies chld.parent`children, chld`parent, chld`root
      ensures Linked() && chld.parent == null && chld.root == chld
      ensures old(chld.parent).children == old(Dropped(chld.parent.children, chld))
      ensures Rooted() <==> old(chld.children) == []
      ensures old(Named()) ==> Named()
    {
      hide Linked, Rooted, DistinctNames, Dropped;
      ghost var parent, list := chld.parent, Dropped(chld.parent.children, chld);
      ParentIn(chld);
      if Named() { DistinctDropped(parent.children, chld); }
      DetachFrom(chld);
      forall n | n in nodes && old(Named())
        ensures DistinctNames(n.children)
      {
        assert old(DistinctNames(n.children));
        assert n != parent ==> n.children == old(n.children);
        assert n == parent ==> n.children == list && old(DistinctNames(list));
      }
    }

    lemma ParentIn(n: Node)
      requires Linked() && n in nodes && n.parent != null
      ensures n.parent in nodes
    {
    }

    method DetachFrom(chld: Node)
      requires Linked() && Rooted() && chld in nodes && chld.parent != null
      modifies chld.parent`children, chld`parent, chld`root
      ensures Linked() && chld.parent == null && chld.root == chld
      ensures old(chld.parent).children == old(Dropped(chld.parent.children, chld))
      ensures Rooted() <==> old(chld.children) == []
    {
      RootAbove(chld);
      assert Distinct(chld.parent.children);
      chld.parent.children := Dropped(chld.parent.children, chld);
      chld.parent := null;
      chld.root := chld;
      if chld.children != [] {
        assert chld.children[0] in chld.children && chld.children[0].root != chld;
      }
    }

    // ---- Absolute paths ----

    // What GenerateObjectPath puts in front: "/name" for each object on the way, root excluded
    ghost function PathFrom(n: Node): string
      requires Linked() && n in nodes
      reads this, nodes`name, nodes`parent, nodes`children
      decreases depth[n]
    {
      if n.parent == null then "" else PathFrom(n.parent) + "/" + n.name
    }

    ghost function Above(n: Node): (r: set<Node>)
      requires Linked() && n in nodes
      reads this, nodes`parent, nodes`children
      ensures r <= nodes
      decreases depth[n]
    {
      if n.parent == null then {} else {n.parent} + Above(n.parent)
    }

    // How long the path of n is when it has been put together as far as its ancestor a
    ghost function LengthTo(n: Node, a: Node): int
      requires Linked() && n in nodes && a in nodes
      reads this, nodes`name, nodes`parent, nodes`children
    {
      |PathFrom(n)| - |PathFrom(a)|
    }

    // With len characters there before, the path comes to be as long as the buffer at some
    // ancestor: there is no room for the NUL.
    ghost predicate Overrun(n: Node, len: nat, pathLen: nat)
      requires Linked() && n in nodes
      reads this, nodes`name, nodes`parent, nodes`children
    {
      exists a :: a in Above(n) && LengthTo(n, a) + len == pathLen
    }

    lemma RootStep(n: Node)
      requires Linked() && Rooted() && n in nodes && n.parent != null
      ensures n.parent in nodes && 0 <= depth[n.parent] < depth[n] && (n.parent == n.root <==> n.parent.parent == null)
      ensures n.parent.parent == null ==> Above(n.parent) == {}
    {
      RootAbove(n.parent);
    }

    // GenerateObjectPath.  The size check leaves no room for the NUL: overrun tells whether
    // a byte is written behind the end of the buffer.
    method GenerateObjectPath(ob: Node, path: string, pathLen: nat) returns (rc: int, r: string, overrun: bool)
      requires Linked() && Rooted() && ob in nodes && ob.parent != null
      decreases depth[ob]
      ensures rc == if |PathFrom(ob)| + |path| <= pathLen then 0 else -1
      ensures rc == 0 ==> r == PathFrom(ob) + path
      ensures overrun <==> Overrun(ob, |path|, pathLen)
    {
      hide Linked, Rooted;
      PathShorter(ob);
      if |ob.name| + |path| + 1 > pathLen {
        return -1, path, false;
      }
      OverrunStep(ob, |path|, pathLen);
      overrun := |path| + 1 + |ob.name| + 1 > pathLen;
      r := "/" + ob.name + path;
      rc := 0;
      RootStep(ob);
      if ob.parent != ob.root && ob.parent != null {
        var more;
        rc, r, more := GenerateObjectPath(ob.parent, r, pathLen);
        overrun := overrun || more;
      }
    }

    lemma OverrunStep(n: Node, len: nat, pathLen: nat)
      requires Linked() && n in nodes && n.parent != null
      ensures Overrun(n, len, pathLen) <==>
        len + 1 + |n.name| == pathLen || Overrun(n.parent, len + 1 + |n.name|, pathLen)
    {
      assert LengthTo(n, n.parent) == 1 + |n.name|;
      assert forall a :: a in Above(n.parent) ==> LengthTo(n, a) == LengthTo(n.parent, a) + 1 + |n.name|;
    }

    // Going up makes the path shorter.
    lemma {:induction false} PathShorter(n: Node)
      requires Linked() && n in nodes
      ensures forall a :: a in Above(n) ==> LengthTo(n, a) >= 1 + |n.name|
      decreases depth[n]
    {
      if n.parent != null {
        PathShorter(n.parent);
      }
    }

    ghost function AbsPath(n: Node): string
      requires Linked() && n in nodes
      reads this, nodes`name, nodes`parent, nodes`children
    {
      if n.parent == null then "/" + n.name else PathFrom(n) + "/"
    }

    lemma StartsSame(a: string, b: string)
      requires b != ""
      ensures (a + b)[0] == if a == "" then b[0] else a[0]
    {
    }

    lemma {:induction false} PathStarts(n: Node)
      requires Linked() && n in nodes
      ensures AbsPath(n) != "" && AbsPath(n)[0] == '/'
      ensures n.parent != null ==> PathFrom(n) != "" && PathFrom(n)[0] == '/'
      decreases depth[n]
    {
      if n.parent != null {
        PathStarts(n.parent);
        StartsSame(PathFrom(n.parent), "/" + n.name);
        assert PathFrom(n) == PathFrom(n.parent) + ("/" + n.name);
        StartsSame(PathFrom(n), "/");
      }
    }

    // AG_ObjectCopyName
    method CopyName(ob: Node, pathLen: nat) returns (rc: int, r: string, overrun: bool)
      requires Linked() && Rooted() && ob in nodes
      ensures pathLen < 2 ==> rc == -1 && !overrun
      ensures pathLen >= 2 && ob.parent == null ==> rc == 0 && r == Take(AbsPath(ob), pathLen - 1) && !overrun
      ensures pathLen >= 2 && ob.parent != null ==>
        && rc == (if |AbsPath(ob)| <= pathLen then 0 else -1) && (overrun <==> Overrun(ob, 1, pathLen))
      ensures |AbsPath(ob)| < pathLen && pathLen >= 2 ==> rc == 0 && r == AbsPath(ob) && !overrun
    {
      if pathLen < 2 {
        return -1, "", false;
      }
      RootAbove(ob);
      if ob == ob.root {
        rc, r, overrun := 0, Take("/" + ob.name, pathLen - 1), false;
      } else {
        rc, r, overrun := GenerateObjectPath(ob, "/", pathLen);
      }
    }

    // ---- Resolution of paths ----

    // What FindObjectByName finds; the name is copied to a buffer of 1024 bytes to be cut.
    ghost function Find(n: Node, path: string): Node?
      requires Linked() && n in nodes
      reads this, nodes`name, nodes`parent, nodes`children
      decreases |path|
    {
      assert forall c :: c in n.children ==> c in nodes;
      var c := ChildNamed(n.children, Cut(Take(path, 1023)));
      if c != null && '/' in path && Tail(path) != "" then Find(c, Tail(path)) else c
    }

    method FindObjectByName(parent: Node, name: string) returns (r: Node?)
      requires Linked() && parent in nodes
      ensures r == Find(parent, name)
      decreases |name|
    {
      var nodeName := Cut(Take(name, 1023));
      ghost var s := parent.children;
      var i := 0;
      while i < |parent.children|
        invariant i <= |s| && ChildNamed(s, nodeName) == ChildNamed(s[i..], nodeName)
      {
        var child := parent.children[i];
        assert child in s && s[i..][0] == child && s[i..][1..] == s[i + 1..];
        if child.name == nodeName {
          if '/' in name && Tail(name) != "" {
            r := FindObjectByName(child, Tail(name));
            return;
          }
          return child;
        }
        i := i + 1;
      }
      return null;
    }

    // AG_ObjectFindS on an absolute path
    method FindS(root: Node, name: string) returns (r: Node?)
      requires Linked() && root in nodes && name != "" && name[0] == '/'
      ensures r == Resolve(root, name)
    {
      if name == "/" {
        return root;
      }
      r := FindObjectByName(root, name[1..]);
    }

    ghost function Resolve(root: Node, path: string): Node?
      requires Linked() && root in nodes && path != ""
      reads this, nodes`name, nodes`parent, nodes`children
    {
      if path == "/" then root else Find(root, path[1..])
    }

    // One step down, along a name in the path
    lemma FindStep(c: Node, rest: string)
      requires Linked() && Named() && c in nodes && c.parent != null
      ensures Find(c.parent, c.name + "/" + rest) == if rest == "" then c else Find(c, rest)
    {
      CutAt(c.name, rest);
      var path := c.name + "/" + rest;
      if |path| <= 1023 {
        assert Cut(Take(path, 1023)) == c.name;
      } else {
        var more := path[|c.name| + 1..1023];
        assert Take(path, 1023) == c.name + "/" + more;
        CutAt(c.name, more);
      }
      assert DistinctNames(c.parent.children) && c in c.parent.children;
    }

    lemma RootSame(n: Node)
      requires Linked() && Rooted() && n in nodes
      ensures n.root == if n.parent == null then n else n.parent.root
    {
    }

    // Looking up a path from the root comes by every object on the way.
    lemma {:induction false} FindFromRoot(n: Node, rest: string)
      requires Linked() && Rooted() && Named() && n in nodes && n.root in nodes
      requires n.parent != null || rest != ""
      ensures Find(n.root, (PathFrom(n) + "/" + rest)[1..]) == if rest == "" then n else Find(n, rest)
      decreases depth[n]
    {
      hide Find, Named, Rooted, Cut, Tail, ChildNamed;
      RootSame(n);
      if n.parent == null {
        assert ("" + "/" + rest)[1..] == rest;
      } else {
        var more := n.name + "/" + rest;
        FindFromRoot(n.parent, more);
        assert PathFrom(n) + "/" + rest == PathFrom(n.parent) + "/" + more;
        FindStep(n, rest);
      }
    }

    // The absolute path of an object leads back to it, except that of a root with a name.
    lemma PathLeadsBack(n: Node)
      requires Linked() && Rooted() && Named() && n in nodes && n.root in nodes
      ensures Resolve(n.root, AbsPath(n)) == n <==> n.parent != null || n.name == ""
    {
      if n.parent != null {
        FindFromRoot(n, "");
        assert PathFrom(n) + "/" + "" == AbsPath(n);
        PathShorter(n);
        assert n.parent in Above(n) && LengthTo(n, n.parent) >= 1;
      } else if n.name != "" {
        assert AbsPath(n)[1..] == n.name;
        CutWhole(n.name);
        var c := Find(n, n.name);
        assert c != null ==> c in n.children && c.parent == n;
      }
    }

    // AG_ObjectResolveDeps comes to n when it is called of top.
    ghost predicate Reached(n: Node, top: Node)
      reads this, nodes`parent, nodes`persistent, n`parent, n`persistent
      decreases if n in nodes && n in depth then depth[n] else 0
    {
      n == top || (
        && n in nodes && n in depth && n.persistent && n.parent != null
        && n.parent in nodes && n.parent in depth && depth[n.parent] < depth[n] && Reached(n.parent, top))
    }

    lemma ChildOf(ob: Node, c: Node)
      requires Linked() && Rooted() && ob in nodes && c in ob.children
      ensures c in nodes && c.parent == ob && depth[ob] < depth[c] && c.root == ob.root
    {
    }

    // It comes to the object itself, and to what it comes to from a persistent child.
    lemma {:induction false} ReachedBelow(n: Node, top: Node)
      requires Linked() && n in nodes && top in nodes && Reached(n, top)
      ensures n == top || exists c :: c in top.children && c.persistent && Reached(n, c)
      decreases depth[n]
    {
      if n != top {
        if n.parent == top {
          assert n in top.children && Reached(n, n);
        } else {
          ReachedBelow(n.parent, top);
        }
      }
    }

    lemma {:induction false} ReachedUp(n: Node, c: Node)
      requires Linked() && n in nodes && c in nodes && c.parent != null && c.persistent && Reached(n, c)
      ensures Reached(n, c.parent)
      decreases depth[n]
    {
      if n != c {
        ReachedUp(n.parent, c);
      } else {
        assert Reached(c.parent, c.parent);
      }
    }

    // What the paths of the tables lead to
    ghost predicate Looks(root: Node, look: Lookup)
      requires Linked() && root in nodes
      reads this, nodes`name, nodes`parent, nodes`children
    {
      forall s :: s in look ==> s != "" && s[0] == '/' && look[s] == Resolve(root, s)
    }

    // The tables of all objects lead where these tables led.
    ghost predicate Kept(look: Lookup, was: map<Node, seq<Dep>>)
      reads this, nodes`deps
    {
      was.Keys == nodes && forall n :: n in nodes ==> SameLead(look, n.deps, was[n])
    }

    ghost predicate ReachedLead(top: Node, look: Lookup, was: map<Node, seq<Dep>>)
      reads this, nodes`parent, nodes`persistent, top`parent, top`persistent
    {
      forall n :: n in nodes && n in was && Reached(n, top) ==> AllLead(look, was[n])
    }

    ghost predicate ReachedKnown(top: Node)
      reads this, nodes`parent, nodes`persistent, nodes`deps
    {
      forall n :: n in nodes && Reached(n, top) ==> AllKnown(n.deps)
    }

    // The dependencies of one object: those not yet known are looked up from the root by the
    // paths they were saved under.
    method ResolveOwn(ob: Node, ghost look: Lookup) returns (rc: int)
      requires Linked() && ob in nodes && ob.root in nodes && Looks(ob.root, look) && SameLead(look, ob.deps, ob.deps)
      modifies ob`deps
      ensures SameLead(look, ob.deps, old(ob.deps))
      ensures rc == 0 <==> AllLead(look, old(ob.deps))
      ensures rc == 0 ==> AllKnown(ob.deps)
    {
      hide Linked, Looks, SameLead, AllLead, Lead;
      ghost var was := ob.deps;
      var i := 0;
      while i < |ob.deps|
        invariant i <= |ob.deps| && SameLead(look, ob.deps, was) && AllKnown(ob.deps[..i])
      {
        var dep := ob.deps[i];
        if dep.obj == null {
          PathLeads(ob.root, look, ob.deps, was, i);
          var obj := FindS(ob.root, dep.path);
          OneResolved(look, ob.deps, was, i);
          if obj == null {
            return -1;
          }
          ob.deps := ob.deps[i := Dep(obj, "")];  // the path is freed
        }
        OneKnown(ob.deps, i);
        i := i + 1;
      }
      assert ob.deps[..i] == ob.deps;
      KnownLead(look, ob.deps, was);
      return 0;
    }

    lemma PathLeads(root: Node, look: Lookup, now: seq<Dep>, was: seq<Dep>, i: nat)
      requires Linked() && root in nodes && Looks(root, look) && SameLead(look, now, was)
      requires i < |now| && now[i].obj == null
      ensures var s := now[i].path; s != "" && s[0] == '/' && Lead(look, now[i]) == Resolve(root, s)
    {
    }

    // An object and its persistent children
    method ResolveBelow(ob: Node, ghost look: Lookup, ghost was: map<Node, seq<Dep>>, ghost bound: nat)
      returns (rc: int)
      requires Linked() && Rooted() && ob in nodes && ob.root in nodes && Looks(ob.root, look) && Kept(look, was)
      requires forall n :: n in nodes ==> depth[n] < bound
      modifies nodes`deps
      ensures Kept(look, was) && (rc == 0 <==> ReachedLead(ob, look, was)) && (rc == 0 ==> ReachedKnown(ob))
      ensures forall n :: n in nodes && AllKnown(old(n.deps)) ==> AllKnown(n.deps)
      decreases bound - depth[ob]
    {
      hide Linked, Rooted, Looks, Kept, SameLead, AllLead, AllKnown, ReachedLead, Reached;
      rc := ResolveFirst(ob, look, was);
      if rc != 0 {
        return;
      }
      var i := 0;
      while i < |ob.children|
        invariant i <= |ob.children| && rc == 0 && Kept(look, was) && AllKnown(ob.deps)
        invariant forall n :: n in nodes && AllKnown(old(n.deps)) ==> AllKnown(n.deps)
        invariant forall k :: 0 <= k < i && ob.children[k].persistent ==> ReachedLead(ob.children[k], look, was)
        invariant forall n, k :: n in nodes && 0 <= k < i && ob.children[k].persistent && Reached(n, ob.children[k]) ==>
          AllKnown(n.deps)
      {
        var cob := ob.children[i];
        ChildOf(ob, cob);
        if cob.persistent {
          ghost var known := set n | n in nodes && AllKnown(n.deps);
          rc := ResolveBelow(cob, look, was, bound);
          assert forall n :: n in known ==> AllKnown(n.deps);
          if rc != 0 {
            NotReachedLead(cob, look, was);
            return;
          }
        }
        i := i + 1;
      }
      AllReached(ob, look, was);
    }

    method ResolveFirst(ob: Node, ghost look: Lookup, ghost was: map<Node, seq<Dep>>) returns (rc: int)
      requires Linked() && ob in nodes && ob.root in nodes && Looks(ob.root, look) && Kept(look, was)
      modifies ob`deps
      ensures Kept(look, was) && (rc == 0 <==> AllLead(look, was[ob])) && (rc == 0 ==> AllKnown(ob.deps))
      ensures rc != 0 ==> !ReachedLead(ob, look, was)
      ensures AllKnown(old(ob.deps)) ==> AllKnown(ob.deps)
    {
      hide Linked, Looks, SameLead, AllLead, AllKnown;
      ghost var mid := ob.deps;
      SameTwice(look, mid, mid, was[ob]);
      rc := ResolveOwn(ob, look);
      SameTwice(look, ob.deps, mid, was[ob]);
      assert Reached(ob, ob);
    }

    // What is reached from a persistent child is reached from its parent.
    lemma NotReachedLead(c: Node, look: Lookup, was: map<Node, seq<Dep>>)
      requires Linked() && c in nodes && c.parent != null && c.persistent && !ReachedLead(c, look, was)
      ensures !ReachedLead(c.parent, look, was)
    {
      var n :| n in nodes && n in was && Reached(n, c) && !AllLead(look, was[n]);
      ReachedUp(n, c);
    }

    lemma AllReached(ob: Node, look: Lookup, was: map<Node, seq<Dep>>)
      requires Linked() && ob in nodes && AllKnown(ob.deps) && Kept(look, was) && AllLead(look, was[ob])
      requires forall k :: 0 <= k < |ob.children| && ob.children[k].persistent ==>
        ReachedKnown(ob.children[k]) && ReachedLead(ob.children[k], look, was)
      ensures ReachedKnown(ob) && ReachedLead(ob, look, was)
    {
      hide AllLead, AllKnown;
      forall n | n in nodes && Reached(n, ob)
        ensures AllKnown(n.deps) && AllLead(look, was[n])
      {
        ReachedBelow(n, ob);
      }
    }

    // What a dependency of n leads to: the object if it is known, or what its path resolves to
    ghost function Target(n: Node, d: Dep): Node?
      requires Linked() && n.root in nodes && (d.obj == null ==> d.path != "")
      reads this, n`root, nodes`name, nodes`parent, nodes`children
    {
      if d.obj != null then d.obj else Resolve(n.root, d.path)
    }

    // Dependencies are objects or absolute paths.
    ghost predicate Depends()
      reads this, nodes`deps
    {
      forall n, i :: n in nodes && 0 <= i < |n.deps| ==>
        n.deps[i].obj != null || (n.deps[i].path != "" && n.deps[i].path[0] == '/')
    }

    ghost predicate RootsKnown()
      reads this, nodes`root
    {
      forall n :: n in nodes ==> n.root in nodes
    }

    // AG_ObjectResolveDeps, of an object and its persistent children: succeeds if and only if
    // all dependencies it comes to lead somewhere, and then they are the objects they led to.
    method ResolveDeps(ob: Node) returns (rc: int)
      requires Linked() && Rooted() && RootsKnown() && Depends() && ob in nodes
      modifies nodes`deps
      ensures rc == 0 <==> forall n, i :: n in nodes && Reached(n, ob) && 0 <= i < |old(n.deps)| ==>
        Target(n, old(n.deps)[i]) != null
      ensures rc == 0 ==> forall n :: n in nodes && Reached(n, ob) ==> |n.deps| == |old(n.deps)|
      ensures rc == 0 ==> forall n, i :: n in nodes && Reached(n, ob) && 0 <= i < |n.deps| ==>
        n.deps[i].obj == Target(n, old(n.deps)[i])
    {
      hide Linked, Rooted, SameLead, AllLead, AllKnown;
      ghost var look := Looked(ob.root);
      ghost var was := map n | n in nodes :: n.deps;
      ghost var bound := DepthBound();
      Covered(ob.root, look);
      rc := ResolveBelow(ob, look, was, bound);
      forall n | n in nodes && Reached(n, ob)
        ensures AllLead(look, was[n]) <==> forall i :: 0 <= i < |was[n]| ==> Target(n, was[n][i]) != null
        ensures rc == 0 ==> |n.deps| == |was[n]| && forall i :: 0 <= i < |n.deps| ==>
          n.deps[i].obj == Target(n, was[n][i])
      {
        ReachedRoot(n, ob);
        Targets(n, look, n.deps, was[n]);
      }
    }

    ghost function Looked(root: Node): (look: Lookup)
      requires Linked() && root in nodes && Depends()
      reads this, nodes`name, nodes`parent, nodes`children, nodes`deps
    {
      var paths := set n, i | n in nodes && 0 <= i < |n.deps| && n.deps[i].obj == null :: n.deps[i].path;
      map s | s in paths :: Resolve(root, s)
    }

    lemma Covered(root: Node, look: Lookup)
      requires Linked() && root in nodes && Depends() && look == Looked(root)
      ensures Looks(root, look) && forall n :: n in nodes ==> SameLead(look, n.deps, n.deps)
    {
    }

    ghost function Bound(s: set<Node>): (b: nat)
      requires s <= depth.Keys
      reads this
      ensures forall n :: n in s ==> depth[n] < b
    {
      if s == {} then 0
      else
        var n :| n in s;
        var b := Bound(s - {n});
        if depth[n] < b then b else depth[n] + 1
    }

    lemma DepthBound() returns (b: nat)
      requires Linked()
      ensures forall n :: n in nodes ==> depth[n] < b
    {
      b := Bound(nodes);
    }

    lemma {:induction false} ReachedRoot(n: Node, ob: Node)
      requires Linked() && Rooted() && n in nodes && ob in nodes && Reached(n, ob)
      ensures n.root == ob.root
      decreases depth[n]
    {
      if n != ob { ReachedRoot(n.parent, ob); }
    }

    lemma Targets(n: Node, look: Lookup, now: seq<Dep>, was: seq<Dep>)
      requires Linked() && n.root in nodes && Looks(n.root, look) && SameLead(look, now, was)
      requires forall i :: 0 <= i < |was| ==> IsPath(look, was[i]) && (was[i].obj == null ==> was[i].path != "")
      ensures |now| == |was|
      ensures AllLead(look, was) <==> forall i :: 0 <= i < |was| ==> Target(n, was[i]) != null
      ensures AllKnown(now) ==> forall i :: 0 <= i < |was| ==> now[i].obj == Target(n, was[i])
    {
      forall i | 0 <= i < |was|
        ensures Lead(look, was[i]) == Target(n, was[i]) && (now[i].obj != null ==> now[i].obj == Lead(look, was[i]))
      {
      }
    }
  }

  // An entry of the dependency table: an object, or the path it was saved under
  datatype Dep = Dep(obj: Node?, path: string)

  type Lookup = map<string, Node?>

  // What a dependency leads to
  function Lead(look: Lookup, d: Dep): Node? {
    if d.obj != null then d.obj else if d.path in look then look[d.path] else null
  }

  predicate IsPath(look: Lookup, d: Dep) {
    d.obj != null || d.path in look
  }

  // These dependencies lead where those led, and what was known still is.
  predicate SameLead(look: Lookup, now: seq<Dep>, was: seq<Dep>) {
    |now| == |was| && forall i :: 0 <= i < |was| ==>
      && IsPath(look, now[i]) && Lead(look, now[i]) == Lead(look, was[i]) && (was[i].obj != null ==> now[i].obj != null)
  }

  // Every dependency leads somewhere.
  predicate AllLead(look: Lookup, deps: seq<Dep>) {
    forall i :: 0 <= i < |deps| ==> Lead(look, deps[i]) != null
  }

  predicate AllKnown(deps: seq<Dep>) {
    forall i :: 0 <= i < |deps| ==> deps[i].obj != null
  }

  lemma SameTwice(look: Lookup, now: seq<Dep>, mid: seq<Dep>, was: seq<Dep>)
    requires SameLead(look, mid, was)
    ensures SameLead(look, mid, mid) && (AllLead(look, mid) <==> AllLead(look, was))
    ensures SameLead(look, now, mid) ==> SameLead(look, now, was) && (AllKnown(mid) ==> AllKnown(now))
  {
  }

  // A step of the loop over a table
  lemma OneResolved(look: Lookup, now: seq<Dep>, was: seq<Dep>, i: nat)
    requires SameLead(look, now, was) && i < |now|
    ensures var obj := Lead(look, now[i]);
      if obj == null then !AllLead(look, was) else SameLead(look, now[i := Dep(obj, "")], was)
  {
  }

  lemma OneKnown(now: seq<Dep>, i: nat)
    requires i < |now| && AllKnown(now[..i]) && now[i].obj != null
    ensures AllKnown(now[..i + 1])
  {
    assert forall k :: 0 <= k < i ==> now[..i][k] == now[k];
  }

  lemma KnownLead(look: Lookup, now: seq<Dep>, was: seq<Dep>)
    requires SameLead(look, now, was) && AllKnown(now)
    ensures AllLead(look, was)
  {
    assert forall i :: 0 <= i < |now| ==> Lead(look, now[i]) == Lead(look, was[i]);
  }
}
