/** Dependencies through an archive (core/object.c): pointers to objects are saved as paths,
    which are looked up again after loading.  The characters of a name are bytes in the archive. */
module Dependencies {

  import opened Wire
  import opened DataSource
  import Archive
  import Loading
  import RoundTrip
  import VfsPath

  const PATH_MAX := 1024  // AG_OBJECT_PATH_MAX

  predicate Narrow(s: string) {
    forall i :: 0 <= i < |s| ==> s[i] as int < 256
  }

  function Encode(s: string): Str
    requires Narrow(s)
  {
    seq(|s|, i requires 0 <= i < |s| => s[i] as int)
  }

  function Decode(b: Str): (s: string)
    ensures |s| == |b|
  {
    seq(|b|, i requires 0 <= i < |b| => b[i] as char)
  }

  // What a dependency on another object is saved as: AG_ObjectCopyName of that object
  ghost predicate Points(f: VfsPath.Forest, dep: Archive.Dep, to: VfsPath.Node)
    requires f.Linked() && to in f.nodes
    reads f, f.nodes`name, f.nodes`parent, f.nodes`children
  {
    Narrow(f.AbsPath(to)) && |f.AbsPath(to)| < PATH_MAX && dep.path == Encode(f.AbsPath(to))
  }

  // The objects of the persistent dependencies
  function Persistent(deps: seq<Archive.Dep>, to: seq<VfsPath.Node>): seq<VfsPath.Node>
    requires |deps| == |to|
  {
    if deps == [] then [] else (if deps[0].persistent then [to[0]] else []) + Persistent(deps[1..], to[1..])
  }

  // Looked up from the root, the path leads to the object.
  ghost predicate LeadsTo(f: VfsPath.Forest, root: VfsPath.Node, path: Str, n: VfsPath.Node)
    requires f.Linked() && root in f.nodes
    reads f, f.nodes`name, f.nodes`parent, f.nodes`children
  {
    path != [] && Decode(path)[0] == '/' && f.Resolve(root, Decode(path)) == n
  }

  lemma PathLeadsBack(f: VfsPath.Forest, dep: Archive.Dep, n: VfsPath.Node)
    requires f.Linked() && f.Rooted() && f.Named() && n in f.nodes && n.root in f.nodes && Points(f, dep, n)
    requires n.parent != null || n.name == ""
    ensures LeadsTo(f, n.root, dep.path, n)
  {
    assert Decode(dep.path) == f.AbsPath(n);
    f.PathLeadsBack(n);
    f.PathStarts(n);
  }

  // The paths that are saved lead to the objects they came from.
  lemma {:induction false} PathsLeadBack(f: VfsPath.Forest, root: VfsPath.Node, deps: seq<Archive.Dep>,
      to: seq<VfsPath.Node>)
    requires f.Linked() && f.Rooted() && f.Named() && root in f.nodes && |deps| == |to|
    requires forall i :: 0 <= i < |to| ==> to[i] in f.nodes && to[i].root == root && Points(f, deps[i], to[i])
    requires forall i :: 0 <= i < |to| ==> to[i].parent != null || to[i].name == ""
    ensures var paths, back := Archive.PathsOf(deps), Persistent(deps, to);
      |paths| == |back| && forall i :: 0 <= i < |paths| ==> LeadsTo(f, root, paths[i], back[i])
  {
    hide LeadsTo, Points, VfsPath.Forest.Linked, VfsPath.Forest.Rooted, VfsPath.Forest.Named;
    if deps != [] {
      PathsLeadBack(f, root, deps[1..], to[1..]);
      PathLeadsBack(f, deps[0], to[0]);
    }
  }

  // The table that is loaded: paths, and no objects yet
  function Table(paths: seq<Str>): (deps: seq<VfsPath.Dep>)
    ensures |deps| == |paths| && forall i :: 0 <= i < |deps| ==> deps[i] == VfsPath.Dep(null, Decode(paths[i]))
  {
    seq(|paths|, i requires 0 <= i < |paths| => VfsPath.Dep(null, Decode(paths[i])))
  }

  // Dependencies survive archiving: an object is written, read again, and given the table that
  // was read.  Resolving it succeeds if and only if the dependencies of the objects below it
  // lead somewhere, and then it has the objects of its persistent dependencies, in order.
  method Survive<S(!new)>(f: VfsPath.Forest, n: VfsPath.Node, ghost to: seq<VfsPath.Node>, ob: Archive.Object<S>,
      t: Loading.Target<S>, ds: CoreSource)
    returns (rc: int)
    requires f.Linked() && f.Rooted() && f.Named() && f.RootsKnown() && f.Depends() && n in f.nodes && |ob.deps| == |to|
    requires forall i :: 0 <= i < |to| ==> to[i] in f.nodes && to[i].root == n.root && Points(f, ob.deps[i], to[i])
    requires forall i :: 0 <= i < |to| ==> to[i].parent != null || to[i].name == ""
    requires ds.AtEnd() && Archive.Restorable(ds.Settings().(debug := false), ob) && RoundTrip.Fits(ob, t)
    requires t.deps == []
    requires (forall h :: h in ob.cls.hooks ==> Archive.Inverse(h)) && RoundTrip.Readable(ds.Settings(), ob)
    modifies ds`data, ds`size, ds`offs, ds`wrLast, ds`wrTotal, ds`rdLast, ds`rdTotal, ds`debug, t, f.nodes`deps
    ensures rc == 0 <==> forall c, i :: c in f.nodes && c != n && f.Reached(c, n) && 0 <= i < |old(c.deps)| ==>
      f.Target(c, old(c.deps)[i]) != null
    ensures rc == 0 ==> |n.deps| == |Persistent(ob.deps, to)|
    ensures rc == 0 ==> forall i :: 0 <= i < |n.deps| ==> n.deps[i].obj == Persistent(ob.deps, to)[i]
  {
    hide Archive.Restorable, Archive.Inverse, RoundTrip.Readable, RoundTrip.Fits, Archive.Restored,
      Points, Persistent, LeadsTo,
      VfsPath.Forest.Linked, VfsPath.Forest.Rooted, VfsPath.Forest.Named, VfsPath.Forest.Depends;
    PathsLeadBack(f, n.root, ob.deps, to);
    rc := RoundTrip.SaveAndLoad(ob, t, ds);
    assert t.deps == Archive.PathsOf(ob.deps);
    rc := ResolveTable(f, n, t.deps, Persistent(ob.deps, to));
  }

  // An object with a table just loaded, whose paths lead to the objects `back`
  method ResolveTable(f: VfsPath.Forest, n: VfsPath.Node, paths: seq<Str>, ghost back: seq<VfsPath.Node>)
    returns (rc: int)
    requires f.Linked() && f.Rooted() && f.RootsKnown() && f.Depends() && n in f.nodes && |paths| == |back|
    requires forall i :: 0 <= i < |paths| ==> LeadsTo(f, n.root, paths[i], back[i])
    modifies f.nodes`deps
    ensures rc == 0 <==> forall c, i :: c in f.nodes && c != n && f.Reached(c, n) && 0 <= i < |old(c.deps)| ==>
      f.Target(c, old(c.deps)[i]) != null
    ensures rc == 0 ==> |n.deps| == |back| && forall i :: 0 <= i < |n.deps| ==> n.deps[i].obj == back[i]
  {
    hide VfsPath.Forest.Linked, VfsPath.Forest.Rooted, VfsPath.Forest.Depends, VfsPath.Forest.Target;
    SetTable(f, n, paths, back);
    assert f.Reached(n, n);
    rc := f.ResolveDeps(n);
  }

  method SetTable(f: VfsPath.Forest, n: VfsPath.Node, paths: seq<Str>, ghost back: seq<VfsPath.Node>)
    requires f.Linked() && f.RootsKnown() && f.Depends() && n in f.nodes && |paths| == |back|
    requires forall i :: 0 <= i < |paths| ==> LeadsTo(f, n.root, paths[i], back[i])
    modifies n`deps
    ensures f.Depends() && |n.deps| == |back|
    ensures forall i :: 0 <= i < |back| ==>
      n.deps[i].obj == null && n.deps[i].path != "" && f.Target(n, n.deps[i]) == back[i]
  {
    hide VfsPath.Forest.Linked, VfsPath.Forest.Resolve;
    n.deps := Table(paths);
  }
}
