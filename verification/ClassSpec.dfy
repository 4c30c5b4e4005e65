/** Class specifications such as "Agar(Widget:Button)@libs" and their expansion
    (core/class.c: AG_ParseClassSpec; core/class.h: AG_GetNamespace).  The buffers that the
    parser fills are strings here, with their sizes checked; the names of namespaces and their
    prefixes are without parentheses. */
module ClassSpec {

  import opened Options
  import opened CString
  import opened ClassPattern

  const LIBS_MAX := 128  // AG_OBJECT_LIBS_MAX
  const NAME_MAX := 128  // AG_OBJECT_NAME_MAX

  datatype Namespace = Namespace(name: string, pfx: string)

  // AG_ObjectClassSpec; Overrun stands for a hierarchy that is written past its buffer.
  datatype Expansion = Bad | Overrun | Expansion(hier: string, libs: string, spec: string, name: string)

  // Where the parser is: the start of the open parenthesis, the name of the namespace so far,
  // whether its buffer holds a name, and the expanded classes, each with a colon behind it
  datatype State = State(open: Option<nat>, ns: string, named: bool, out: string)

  // A C string without parentheses
  predicate NoParens(s: string) {
    '(' !in s && ')' !in s && NoNul(s)
  }

  predicate PlainSpaces(spaces: seq<Namespace>) {
    forall n :: n in spaces ==> NoParens(n.name) && NoParens(n.pfx)
  }

  function FindSpace(spaces: seq<Namespace>, name: string): (r: Option<string>)
    ensures r.Some? ==> Namespace(name, r.value) in spaces
  {
    if spaces == [] then None
    else if spaces[0].name == name then Some(spaces[0].pfx)
    else FindSpace(spaces[1..], name)
  }

  // Every class with the prefix before it and a colon behind it
  function Expanded(pfx: string, classes: seq<string>): string {
    if classes == [] then [] else pfx + classes[0] + ":" + Expanded(pfx, classes[1..])
  }

  // One character; none for an error
  function Step(spaces: seq<Namespace>, spec: string, k: nat, st: State): Option<State>
    requires k < |spec| && (st.open.Some? ==> st.open.value <= k)
  {
    if spec[k] == '(' && k + 1 < |spec| then
      if st.open.Some? || !st.named then None else Some(st.(open := Some(k + 1)))
    else
      var ns := if st.open.None? && spec[k] != ':' then st.ns + [spec[k]] else st.ns;
      if spec[k] != ')' then
        Some(st.(ns := ns, named := st.named || ns != st.ns))
      else if st.open == Some(k) then
        Some(st.(open := None))
      else if st.open.None? || FindSpace(spaces, ns).None? then
        None
      else
        Some(State(None, [], ns != [],
          st.out + Expanded(FindSpace(spaces, ns).value, Tokens(spec[st.open.value..k], ":"))))
  }

  // The first k characters
  function Run(spaces: seq<Namespace>, spec: string, k: nat): (r: Option<State>)
    requires k <= |spec|
    ensures r.Some? && r.value.open.Some? ==> r.value.open.value <= k
  {
    if k == 0 then Some(State(None, [], false, []))
    else
      var st := Run(spaces, spec, k - 1);
      if st.None? then None else Step(spaces, spec, k - 1, st.value)
  }

  // The libraries that the first k characters give
  function Libs(spaces: seq<Namespace>, spec: string, k: nat): string
    requires k <= |spec|
  {
    if k == 0 then []
    else if spec[k - 1] == '@' && k < |spec| && Run(spaces, spec, k - 1).Some? &&
      Run(spaces, spec, k - 1).value.open.None? then
      Take(spec[k..], LIBS_MAX - 1)
    else Libs(spaces, spec, k - 1)
  }

  // s up to the last c, or all of s
  function CutLast(s: string, c: char): (r: string)
    ensures r <= s && (r == s <==> c !in s)
  {
    if s == [] then []
    else if s[|s| - 1] == c then s[..|s| - 1]
    else if c in s[..|s| - 1] then CutLast(s[..|s| - 1], c)
    else s
  }

  // s behind the last colon if there is something, or all of s
  function LastName(s: string): string {
    var up := CutLast(s, ':');
    if ':' in s && |up| + 1 < |s| then s[|up| + 1..] else s
  }

  function Whole(out: string, spec: string, libs: string): Expansion {
    if |out| >= HIER_MAX then Overrun
    else
      var hier := CutLast(if out == [] then spec else out[..|out| - 1], '@');
      Expansion(hier, libs, Take(hier + libs, HIER_MAX - 1), CutLast(Take(LastName(hier), NAME_MAX - 1), '@'))
  }

  function Parse(spaces: seq<Namespace>, spec: string): Expansion {
    var st := Run(spaces, spec, |spec|);
    if |spec| >= HIER_MAX || st.None? then Bad else Whole(st.value.out, spec, Libs(spaces, spec, |spec|))
  }

  // ---- What the fields of an expansion hold ----

  // r is s up to the last c, or all of s.
  predicate UpToLast(r: string, s: string, c: char) {
    if c in s then |r| < |s| && s == r + [c] + s[|r| + 1..] && c !in s[|r| + 1..] else r == s
  }

  // name is what follows the last colon of the hierarchy, or all of a hierarchy without one or
  // with nothing behind it, as far as it fits in a buffer of that size.
  ghost predicate Names(name: string, hier: string, size: nat)
    requires size > 0
  {
    exists at: nat {:trigger hier[at..]} :: at <= |hier| && name == Take(hier[at..], size - 1)
      && if ':' in hier && hier[|hier| - 1] != ':' then 0 < at && hier[at - 1] == ':' && ':' !in hier[at..] else at == 0
  }

  lemma {:induction false} CutLastIs(s: string, c: char)
    ensures UpToLast(CutLast(s, c), s, c)
  {
    if s != [] {
      var n := |s| - 1;
      assert s == s[..n] + [s[n]];
      if s[n] != c && c in s[..n] {
        CutLastIs(s[..n], c);
        LaterCut(CutLast(s[..n], c), s[..n], c, s[n]);
      }
    }
  }

  lemma LaterCut(r: string, s: string, c: char, d: char)
    requires UpToLast(r, s, c) && c in s && c != d
    ensures UpToLast(r, s + [d], c)
  {
    assert (s + [d])[|r| + 1..] == s[|r| + 1..] + [d];
  }

  lemma LastNameIs(s: string, size: nat)
    requires size > 0
    ensures Names(Take(LastName(s), size - 1), s, size)
  {
    hide CutLast;
    CutLastIs(s, ':');
    var up := CutLast(s, ':');
    assert s[0..] == s;
    if ':' in s && |up| + 1 < |s| {
      assert s[|s| - 1] == s[|up| + 1..][|s| - 1 - (|up| + 1)];
    }
  }

  // The hierarchy ends before its last '@', the name is the last class of it, and the
  // specification is the hierarchy with the libraries, as far as that fits.
  lemma FieldsAre(spaces: seq<Namespace>, spec: string)
    requires Parse(spaces, spec).Expansion?
    ensures var p, out := Parse(spaces, spec), Run(spaces, spec, |spec|).value.out;
      && UpToLast(p.hier, if out == [] then spec else out[..|out| - 1], '@')
      && (exists name :: Names(name, p.hier, 128) && UpToLast(p.name, name, '@'))
      && p.spec <= p.hier + p.libs && |p.spec| == if |p.hier + p.libs| < 256 then |p.hier + p.libs| else 255
  {
    hide Run, Libs, CutLast, LastName, Names, UpToLast;
    var p, out := Parse(spaces, spec), Run(spaces, spec, |spec|).value.out;
    TakeIs(p.hier + p.libs, 255);
    CutLastIs(if out == [] then spec else out[..|out| - 1], '@');
    LastNameIs(p.hier, 128);
    CutLastIs(Take(LastName(p.hier), 127), '@');
  }

  lemma TakeIs(s: string, n: nat)
    ensures Take(s, n) <= s && |Take(s, n)| == if |s| <= n then |s| else n
  {
  }

  lemma {:induction false} LibsShort(spaces: seq<Namespace>, spec: string, k: nat)
    requires k <= |spec|
    ensures |Libs(spaces, spec, k)| < LIBS_MAX
  {
    if k > 0 { LibsShort(spaces, spec, k - 1); }
  }

  lemma LibsFit(spaces: seq<Namespace>, spec: string)
    ensures Parse(spaces, spec).Expansion? ==> Take(Parse(spaces, spec).libs, LIBS_MAX - 1) == Parse(spaces, spec).libs
  {
    hide Run, Libs;
    LibsShort(spaces, spec, |spec|);
  }

  // AG_GetNamespace
  method GetNamespace(spaces: seq<Namespace>, ns: string) returns (r: Option<string>)
    ensures r == FindSpace(spaces, ns)
  {
    assert spaces[0..] == spaces;
    for i := 0 to |spaces|
      invariant FindSpace(spaces[i..], ns) == FindSpace(spaces, ns)
    {
      assert spaces[i..][1..] == spaces[i + 1..];
      if spaces[i].name == ns {
        return Some(spaces[i].pfx);
      }
    }
    r := None;
  }

  // The loop over the tokens in parentheses, in a buffer of their own
  method Expand(pfx: string, classes: string) returns (out: string)
    requires NoNul(classes) && |classes| < HIER_MAX
    ensures out == Expanded(pfx, Tokens(classes, ":"))
  {
    hide Holds, Tokens;
    var buf := new char[HIER_MAX];
    var _ := Strlcpy(buf, classes, HIER_MAX);
    ghost var rest, token := classes, [];
    out := [];
    var pBuf, more := 0, true;
    while more
      invariant more ==> Holds(buf, pBuf, rest)
      invariant out + Expanded(pfx, Left(more, rest)) == Expanded(pfx, Tokens(classes, ":"))
      decreases if more then |rest| + 1 else 0
    {
      var pTok, was := pBuf, out;
      pBuf, more, token, rest := NextToken(buf, pBuf, rest);
      ExpandedMore(pfx, token, Left(more, rest), out);
      var tok := TokenAt(buf, pTok, token);
      out := out + (pfx + tok + ":");
    }
    assert out + [] == out;
  }

  method TokenAt(buf: array<char>, at: nat, ghost s: string) returns (tok: string)
    requires Holds(buf, at, s)
    ensures tok == s
  {
    var q := End(buf, at, s);
    tok := buf[at..q];
  }

  lemma ExpandedMore(pfx: string, token: string, rest: seq<string>, out: string)
    ensures out + Expanded(pfx, [token] + rest) == (out + (pfx + token + ":")) + Expanded(pfx, rest)
  {
    assert ([token] + rest)[1..] == rest;
  }

  // AG_ParseClassSpec
  method ParseClassSpec(spaces: seq<Namespace>, spec: string) returns (cs: Expansion)
    requires PlainSpaces(spaces) && NoNul(spec)
    ensures cs == Parse(spaces, spec)
  {
    hide Run;
    if |spec| >= HIER_MAX {
      return Bad;
    }
    RunStart(spaces, spec);
    var pOpen: Option<nat>, nsName, named, hier, libs := None, [], false, [], [];
    for s := 0 to |spec|
      invariant Run(spaces, spec, s) == Some(State(pOpen, nsName, named, hier)) && libs == Libs(spaces, spec, s)
    {
      RunNext(spaces, spec, s);
      if spec[s] == '(' && s + 1 < |spec| {
        if pOpen.Some? || !named {
          RunBad(spaces, spec, s + 1);
          return Bad;
        }
        pOpen := Some(s + 1);
        continue;
      }
      if pOpen.None? {
        if spec[s] != ':' {
          nsName, named := nsName + [spec[s]], true;
        }
        if spec[s] == '@' && s + 1 < |spec| {
          libs := Take(spec[s + 1..], LIBS_MAX - 1);
        }
      }
      if spec[s] == ')' {
        if pOpen == Some(s) {
          pOpen := None;
          continue;
        }
        named := nsName != [];
        var pfx := GetNamespace(spaces, nsName);
        if pfx.None? {
          RunBad(spaces, spec, s + 1);
          return Bad;
        }
        if pOpen.None? {
          assert false;
        }
        var classes := Expand(pfx.value, spec[pOpen.value..s]);
        hier := hier + classes;
        pOpen, nsName := None, [];
      }
    }
    cs := Whole(hier, spec, libs);
  }

  lemma RunBad(spaces: seq<Namespace>, spec: string, k: nat)
    requires k <= |spec| && Run(spaces, spec, k).None?
    ensures Run(spaces, spec, |spec|).None?
  {
    RunBadTo(spaces, spec, k, |spec|);
  }

  lemma {:induction false} RunBadTo(spaces: seq<Namespace>, spec: string, k: nat, n: nat)
    requires k <= n <= |spec| && Run(spaces, spec, k).None?
    ensures Run(spaces, spec, n).None?
    decreases n - k
  {
    if k < n { RunBadTo(spaces, spec, k + 1, n); }
  }

  // ---- Expansion is idempotent ----

  // A specification without parentheses that close on something: a hierarchy already expanded
  predicate Flat(spaces: seq<Namespace>, s: string) {
    var st := Run(spaces, s, |s|);
    st.Some? && st.value.out == []
  }

  lemma {:induction false} ExpandedWithout(pfx: string, classes: seq<string>, c: char)
    requires c != ':' && c !in pfx && forall t :: t in classes ==> c !in t
    ensures c !in Expanded(pfx, classes)
  {
    if classes != [] {
      assert classes[0] in classes;
      ExpandedWithout(pfx, classes[1..], c);
    }
  }

  lemma GroupWithout(pfx: string, body: string, c: char)
    requires c != ':' && c !in pfx && c !in body
    ensures c !in Expanded(pfx, Tokens(body, ":"))
  {
    forall t | t in Tokens(body, ":")
      ensures c !in t
    {
      if c in t { TokenChars(body, t, c); }
    }
    ExpandedWithout(pfx, Tokens(body, ":"), c);
  }

  lemma PlainJoin(a: string, b: string)
    ensures NoParens(a + b) <==> NoParens(a) && NoParens(b)
  {
  }

  lemma PlainFront(a: string, b: string)
    requires a <= b && NoParens(b)
    ensures NoParens(a)
  {
    assert b == a + b[|a|..];
  }

  // What is expanded holds no parentheses, and neither does what an open one holds so far.
  ghost predicate PlainState(spec: string, k: nat, st: State)
    requires k <= |spec| && (st.open.Some? ==> st.open.value <= k)
  {
    NoParens(st.out) && (k < |spec| && st.open.Some? ==> NoParens(spec[st.open.value..k]))
  }

  lemma PlainStep(spaces: seq<Namespace>, spec: string, k: nat, st: State)
    requires k < |spec| && (st.open.Some? ==> st.open.value <= k) && PlainSpaces(spaces) && NoNul(spec)
    requires PlainState(spec, k, st)
    requires Step(spaces, spec, k, st).Some?
    ensures PlainState(spec, k + 1, Step(spaces, spec, k, st).value)
  {
    hide NoParens, FindSpace, Tokens, Expanded;
    assert spec[k] in spec;
    var now := Step(spaces, spec, k, st).value;
    if now.open == st.open && st.open.Some? && k + 1 < |spec| {
      assert spec[st.open.value..k + 1] == spec[st.open.value..k] + [spec[k]];
      PlainJoin(spec[st.open.value..k], [spec[k]]);
      PlainChar(spec[k]);
    } else if now.open == Some(k + 1) {
      PlainNone(spec[now.open.value..k + 1]);
    }
    if now.open.None? && st.open.Some? && st.open.value < k {
      PlainGroup(spaces, st.ns, spec[st.open.value..k]);
      PlainJoin(st.out, Expanded(FindSpace(spaces, st.ns).value, Tokens(spec[st.open.value..k], ":")));
    }
  }

  lemma PlainChar(c: char)
    requires c != '(' && c != ')' && c != '\0'
    ensures NoParens([c])
  {
  }

  lemma PlainNone(s: string)
    requires s == []
    ensures NoParens(s)
  {
  }

  lemma PlainGroup(spaces: seq<Namespace>, ns: string, body: string)
    requires PlainSpaces(spaces) && FindSpace(spaces, ns).Some? && NoParens(body)
    ensures NoParens(Expanded(FindSpace(spaces, ns).value, Tokens(body, ":")))
  {
    GroupWithout(FindSpace(spaces, ns).value, body, '(');
    GroupWithout(FindSpace(spaces, ns).value, body, ')');
    GroupWithout(FindSpace(spaces, ns).value, body, '\0');
  }

  lemma {:induction false} RunPlain(spaces: seq<Namespace>, spec: string, k: nat)
    requires k <= |spec| && PlainSpaces(spaces) && NoNul(spec) && Run(spaces, spec, k).Some?
    ensures PlainState(spec, k, Run(spaces, spec, k).value)
  {
    if k > 0 {
      RunPlain(spaces, spec, k - 1);
      PlainStep(spaces, spec, k - 1, Run(spaces, spec, k - 1).value);
    }
  }

  lemma {:induction false} PlainRuns(spaces: seq<Namespace>, s: string, k: nat)
    requires k <= |s| && NoParens(s)
    ensures var r := Run(spaces, s, k); r.Some? && r.value.out == [] && r.value.open.None?
  {
    if k > 0 {
      PlainRuns(spaces, s, k - 1);
      assert s[k - 1] in s;
    }
  }

  // Nothing is expanded on the way to a flat specification.
  lemma {:induction false} FlatEarlier(spaces: seq<Namespace>, s: string, k: nat)
    requires Flat(spaces, s) && k <= |s|
    ensures var r := Run(spaces, s, k); r.Some? && r.value.out == []
    decreases |s| - k
  {
    if k < |s| { FlatEarlier(spaces, s, k + 1); }
  }

  lemma {:induction false} PrefixRun(spaces: seq<Namespace>, s: string, n: nat, k: nat)
    requires k < n <= |s|
    ensures Run(spaces, s[..n], k) == Run(spaces, s, k)
  {
    hide Run;
    if k == 0 {
      RunStart(spaces, s);
      RunStart(spaces, s[..n]);
    } else {
      PrefixRun(spaces, s, n, k - 1);
      RunNext(spaces, s, k - 1);
      RunNext(spaces, s[..n], k - 1);
      var st := Run(spaces, s, k - 1);
      if st.Some? && st.value.open.Some? {
        PrefixPart(s, n, st.value.open.value, k - 1);
      }
    }
  }

  lemma PrefixPart(s: string, n: nat, i: nat, j: nat)
    requires i <= j <= n <= |s|
    ensures s[..n][i..j] == s[i..j]
  {
  }

  // The front of a flat specification is flat.
  lemma PrefixFlat(spaces: seq<Namespace>, s: string, n: nat)
    requires Flat(spaces, s) && n <= |s|
    ensures Flat(spaces, s[..n])
  {
    if n > 0 {
      FlatEarlier(spaces, s, n);
      FlatEarlier(spaces, s, n - 1);
      PrefixRun(spaces, s, n, n - 1);
    }
  }

  // What a specification is expanded to is flat.
  lemma ResultFlat(spaces: seq<Namespace>, spec: string)
    requires PlainSpaces(spaces) && NoNul(spec) && Parse(spaces, spec).Expansion?
    ensures var h := Parse(spaces, spec).hier; Flat(spaces, h) && |h| < HIER_MAX && NoNul(h)
  {
    hide Run, Libs, LastName, CutLast;
    var st, h := Run(spaces, spec, |spec|).value, Parse(spaces, spec).hier;
    if st.out == [] {
      assert h == spec[..|h|];
      PrefixFlat(spaces, spec, |h|);
    } else {
      RunPlain(spaces, spec, |spec|);
      PlainFront(h, st.out);
      PlainRuns(spaces, h, |h|);
    }
  }

  // A hierarchy expands to what is left of it before the last '@'.
  lemma FlatParses(spaces: seq<Namespace>, h: string)
    requires Flat(spaces, h) && |h| < HIER_MAX
    ensures Parse(spaces, h).Expansion? && Parse(spaces, h).hier == CutLast(h, '@')
  {
  }

  // Expanding once more changes nothing, if and only if no '@' is left.
  lemma Idempotent(spaces: seq<Namespace>, spec: string)
    requires PlainSpaces(spaces) && NoNul(spec) && Parse(spaces, spec).Expansion?
    ensures var h := Parse(spaces, spec).hier; var p := Parse(spaces, h); p.Expansion? && (p.hier == h <==> '@' !in h)
  {
    ResultFlat(spaces, spec);
    FlatParses(spaces, Parse(spaces, spec).hier);
  }

  // ---- What a specification means ----

  // A namespace and the classes in parentheses behind it
  datatype Group = Group(name: string, classes: seq<string>)

  predicate Word(s: string) {
    NoParens(s) && ':' !in s
  }

  // A group that can be written: not an empty pair of parentheses
  predicate Writable(g: Group) {
    Word(g.name) && g.name != [] && g.classes != [] && g.classes != [""] && forall c :: c in g.classes ==> Word(c)
  }

  function Listed(names: seq<string>): string {
    if names == [] then [] else if |names| == 1 then names[0] else names[0] + ":" + Listed(names[1..])
  }

  function WrittenGroup(g: Group): string {
    g.name + "(" + Listed(g.classes) + ")"
  }

  function Written(gs: seq<Group>): string {
    if gs == [] then [] else if |gs| == 1 then WrittenGroup(gs[0]) else WrittenGroup(gs[0]) + ":" + Written(gs[1..])
  }

  function Prefixed(pfx: string, classes: seq<string>): seq<string> {
    if classes == [] then [] else [pfx + classes[0]] + Prefixed(pfx, classes[1..])
  }

  // The classes of all groups, with their prefixes
  function Classes(spaces: seq<Namespace>, gs: seq<Group>): seq<string>
    requires forall g :: g in gs ==> FindSpace(spaces, g.name).Some?
  {
    if gs == [] then []
    else
      assert gs[0] in gs;
      Prefixed(FindSpace(spaces, gs[0].name).value, gs[0].classes) + Classes(spaces, gs[1..])
  }

  // The same with a colon behind each
  function Closed(names: seq<string>): string {
    if names == [] then [] else names[0] + ":" + Closed(names[1..])
  }

  lemma {:induction false} ListedTokens(names: seq<string>, d: char)
    requires names != [] && d == ':' && forall n :: n in names ==> Word(n)
    ensures Tokens(Listed(names), [d]) == names
  {
    hide Tokens, Cut;
    assert names[0] in names;
    OneToken(names[0], d);
    if |names| > 1 {
      ListedTokens(names[1..], d);
      TokensJoin(names[0], Listed(names[1..]), d);
    }
  }

  lemma {:induction false} ListedPlain(names: seq<string>)
    requires forall n :: n in names ==> Word(n)
    ensures NoParens(Listed(names))
  {
    if names != [] {
      assert names[0] in names;
      ListedPlain(names[1..]);
      PlainJoin(names[0] + ":", Listed(names[1..]));
      PlainJoin(names[0], ":");
    }
  }

  lemma {:induction false} ExpandedIs(pfx: string, classes: seq<string>)
    ensures Expanded(pfx, classes) == Closed(Prefixed(pfx, classes))
  {
    if classes != [] { ExpandedIs(pfx, classes[1..]); }
  }

  lemma {:induction false} ClosedJoin(a: seq<string>, b: seq<string>)
    ensures Closed(a + b) == Closed(a) + Closed(b)
  {
    if a == [] {
      assert a + b == b;
    } else {
      assert (a + b)[1..] == a[1..] + b;
      ClosedJoin(a[1..], b);
    }
  }

  lemma {:induction false} ClosedListed(names: seq<string>)
    requires names != []
    ensures Closed(names) == Listed(names) + ":"
  {
    if |names| > 1 { ClosedListed(names[1..]); }
  }

  // The name of a namespace
  lemma {:induction false} RunName(spaces: seq<Namespace>, spec: string, from: nat, name: string, st: State)
    requires from + |name| <= |spec| && spec[from..from + |name|] == name && Word(name)
    requires st.open.None? && Run(spaces, spec, from) == Some(st)
    ensures Run(spaces, spec, from + |name|) == Some(st.(ns := st.ns + name, named := st.named || name != []))
    decreases |name|
  {
    if name == [] {
      assert st.ns + name == st.ns;
    } else {
      var n := |name| - 1;
      assert spec[from..from + n] == name[..n] && spec[from + n] == name[n];
      assert name[n] in name;
      RunName(spaces, spec, from, name[..n], st);
      assert st.ns + name == st.ns + name[..n] + [name[n]];
    }
  }

  // What is in parentheses
  lemma {:induction false} RunBody(spaces: seq<Namespace>, spec: string, from: nat, body: string, st: State)
    requires from + |body| <= |spec| && spec[from..from + |body|] == body && NoParens(body)
    requires st.open.Some? && Run(spaces, spec, from) == Some(st)
    ensures Run(spaces, spec, from + |body|) == Some(st)
    decreases |body|
  {
    if body != [] {
      var n := |body| - 1;
      assert spec[from..from + n] == body[..n] && spec[from + n] == body[n];
      assert body[n] in body;
      RunBody(spaces, spec, from, body[..n], st);
    }
  }

  lemma GroupAt(spec: string, from: nat, name: string, body: string)
    requires from + |name| + |body| + 2 <= |spec| && spec[from..from + |name| + |body| + 2] == name + "(" + body + ")"
    ensures var open := from + |name| + 1;
      && spec[from..from + |name|] == name && spec[open - 1] == '('
      && spec[open..open + |body|] == body && spec[open + |body|] == ')'
  {
    var s := spec[from..from + |name| + |body| + 2];
    assert s[..|name|] == name && s[|name|] == '(' && s[|name| + 1..][..|body|] == body &&
      s[|name| + |body| + 1] == ')';
  }

  // A whole group
  lemma RunGroup(spaces: seq<Namespace>, spec: string, from: nat, name: string, body: string, named: bool, out: string)
    requires Word(name) && name != [] && NoParens(body) && body != []
    requires from + |name| + |body| + 2 <= |spec| && spec[from..from + |name| + |body| + 2] == name + "(" + body + ")"
    requires Run(spaces, spec, from) == Some(State(None, [], named, out))
    ensures Run(spaces, spec, from + |name| + |body| + 2) ==
            if FindSpace(spaces, name).None? then None
            else Some(State(None, [], true, out + Expanded(FindSpace(spaces, name).value, Tokens(body, ":"))))
  {
    hide NoParens, Expanded, Tokens, FindSpace, Run;
    var open := from + |name| + 1;
    GroupAt(spec, from, name, body);
    RunName(spaces, spec, from, name, State(None, [], named, out));
    assert [] + name == name;
    RunNext(spaces, spec, open - 1);
    RunBody(spaces, spec, open, body, State(Some(open), name, true, out));
    RunNext(spaces, spec, open + |body|);
    assert spec[open..open + |body|] == body;
  }

  lemma RunStart(spaces: seq<Namespace>, spec: string)
    ensures Run(spaces, spec, 0) == Some(State(None, [], false, []))
  {
  }

  lemma RunNext(spaces: seq<Namespace>, spec: string, k: nat)
    requires k < |spec|
    ensures var st := Run(spaces, spec, k);
      Run(spaces, spec, k + 1) == if st.None? then None else Step(spaces, spec, k, st.value)
  {
  }

  // An opening parenthesis without a name before it, one within parentheses, and a closing one
  // outside of them are errors.
  lemma NoName(spaces: seq<Namespace>, spec: string)
    requires |spec| > 1 && spec[0] == '('
    ensures Parse(spaces, spec) == Bad
  {
    hide Run;
    RunStart(spaces, spec);
    RunNext(spaces, spec, 0);
    RunBad(spaces, spec, 1);
  }

  lemma NestedOrStray(spaces: seq<Namespace>, spec: string, name: string, body: string)
    requires Word(name) && name != [] && NoParens(body)
    requires (name + "(" + body + "(" <= spec && |spec| > |name| + |body| + 2) || name + ")" <= spec
    ensures Parse(spaces, spec) == Bad
  {
    hide Run, FindSpace, Tokens, Expanded;
    var n := |name|;
    assert spec[0..n] == name && spec[n] in "()";
    RunStart(spaces, spec);
    RunName(spaces, spec, 0, name, State(None, [], false, []));
    assert [] + name == name;
    RunNext(spaces, spec, n);
    if spec[n] == '(' {
      var open := n + 1;
      assert spec[open..open + |body|] == body && spec[open + |body|] == '(';
      RunBody(spaces, spec, open, body, State(Some(open), name, true, []));
      RunNext(spaces, spec, open + |body|);
      RunBad(spaces, spec, open + |body| + 1);
    } else {
      RunBad(spaces, spec, n + 1);
    }
  }

  predicate Known(spaces: seq<Namespace>, gs: seq<Group>) {
    forall g :: g in gs ==> FindSpace(spaces, g.name).Some?
  }

  // The first group, and the colon that follows it
  lemma RunFirst(spaces: seq<Namespace>, spec: string, from: nat, g: Group, named: bool, out: string)
    requires Writable(g) && from + |WrittenGroup(g)| <= |spec|
    requires spec[from..from + |WrittenGroup(g)|] == WrittenGroup(g)
    requires Run(spaces, spec, from) == Some(State(None, [], named, out))
    ensures Run(spaces, spec, from + |WrittenGroup(g)|) ==
            if FindSpace(spaces, g.name).None? then None
            else Some(State(None, [], true, out + Closed(Prefixed(FindSpace(spaces, g.name).value, g.classes))))
  {
    hide Run, Closed, Expanded, Tokens;
    ListedPlain(g.classes);
    ListedTokens(g.classes, ':');
    ListedSome(g.classes);
    RunGroup(spaces, spec, from, g.name, Listed(g.classes), named, out);
    if FindSpace(spaces, g.name).Some? {
      ExpandedIs(FindSpace(spaces, g.name).value, g.classes);
    }
  }

  lemma ListedSome(names: seq<string>)
    requires names != [] && names != [""]
    ensures Listed(names) != []
  {
    assert |names| == 1 ==> names == [names[0]];
  }

  lemma RunColon(spaces: seq<Namespace>, spec: string, k: nat, st: State)
    requires k < |spec| && spec[k] == ':' && Run(spaces, spec, k) == Some(st)
    ensures Run(spaces, spec, k + 1) == Some(st)
  {
  }

  lemma {:induction false} RunGroups(spaces: seq<Namespace>, spec: string, from: nat, to: nat, gs: seq<Group>,
      named: bool, out: string)
    requires gs != [] && (forall g :: g in gs ==> Writable(g)) && from <= to <= |spec| && spec[from..to] == Written(gs)
    requires Run(spaces, spec, from) == Some(State(None, [], named, out))
    ensures Run(spaces, spec, to) ==
            if Known(spaces, gs) then Some(State(None, [], true, out + Closed(Classes(spaces, gs)))) else None
    decreases |gs|
  {
    hide Run, WrittenGroup, Closed, Prefixed;
    var g, n := gs[0], |WrittenGroup(gs[0])|;
    assert g in gs && spec[from..to][..n] == spec[from..from + n] == WrittenGroup(g);
    RunFirst(spaces, spec, from, g, named, out);
    if FindSpace(spaces, g.name).None? {
      RunBadTo(spaces, spec, from + n, to);
    } else {
      var first := Prefixed(FindSpace(spaces, g.name).value, g.classes);
      if |gs| == 1 {
        assert gs[1..] == [] && first + [] == first;
        assert gs == [g];
      } else {
        assert spec[from..to][n] == ':' && spec[from..to][n + 1..] == spec[from + n + 1..to];
        RunColon(spaces, spec, from + n, State(None, [], true, out + Closed(first)));
        RunGroups(spaces, spec, from + n + 1, to, gs[1..], true, out + Closed(first));
        assert gs == [g] + gs[1..];
        if Known(spaces, gs) {
          ClosedJoin(first, Classes(spaces, gs[1..]));
          assert out + (Closed(first) + Closed(Classes(spaces, gs[1..]))) ==
            out + Closed(first) + Closed(Classes(spaces, gs[1..]));
        }
      }
    }
  }

  // What may follow the groups: nothing, or libraries behind an '@'
  predicate Suffix(tail: string) {
    tail == [] || (|tail| > 1 && tail[0] == '@' && NoParens(tail) && '@' !in tail[1..])
  }

  // The characters behind the groups expand to nothing.
  lemma {:induction false} RunTail(spaces: seq<Namespace>, spec: string, from: nat, k: nat, out: string)
    requires from <= k <= |spec| && NoParens(spec[from..])
    requires Run(spaces, spec, from).Some? && Run(spaces, spec, from).value.open.None?
    requires Run(spaces, spec, from).value.out == out
    ensures var r := Run(spaces, spec, k); r.Some? && r.value.open.None? && r.value.out == out
    decreases k - from
  {
    if k > from {
      RunTail(spaces, spec, from, k - 1, out);
      assert spec[from..][k - 1 - from] == spec[k - 1];
      assert spec[k - 1] in spec[from..];
    }
  }

  lemma {:induction false} LibsKept(spaces: seq<Namespace>, spec: string, from: nat, k: nat)
    requires from <= k <= |spec| && '@' !in spec[from..]
    ensures Libs(spaces, spec, k) == Libs(spaces, spec, from)
    decreases k - from
  {
    if k > from {
      LibsKept(spaces, spec, from, k - 1);
      assert spec[from..][k - 1 - from] == spec[k - 1];
      assert spec[k - 1] in spec[from..];
    }
  }

  // A specification written as groups, with or without libraries behind, expands to the classes
  // of all groups, each with the prefix of its namespace, separated by colons, and to the
  // libraries; it is refused if a namespace is unknown.
  lemma Expands(spaces: seq<Namespace>, gs: seq<Group>, tail: string)
    requires gs != [] && (forall g :: g in gs ==> Writable(g)) && Suffix(tail)
    ensures var p, spec := Parse(spaces, Written(gs) + tail), Written(gs) + tail;
      && (p.Bad? <==> |spec| >= HIER_MAX || !Known(spaces, gs))
      && (Known(spaces, gs) && |spec| < HIER_MAX ==>
            && (p.Overrun? <==> |Listed(Classes(spaces, gs))| + 1 >= HIER_MAX)
            && (p.Expansion? ==> p.hier == CutLast(Listed(Classes(spaces, gs)), '@'))
            && (p.Expansion? && tail != [] ==> p.libs == Take(tail[1..], LIBS_MAX - 1)))
  {
    hide Run, Written, Libs, LastName, Classes, Closed, Listed, CutLast;
    var spec, n := Written(gs) + tail, |Written(gs)|;
    RunNone(spaces, spec);
    assert spec[0..n] == Written(gs) && spec[n..] == tail;
    RunGroups(spaces, spec, 0, n, gs, false, []);
    if !Known(spaces, gs) {
      RunBad(spaces, spec, n);
    } else {
      var all := Classes(spaces, gs);
      SomeClasses(spaces, gs);
      ClosedListed(all);
      assert [] + Closed(all) == Listed(all) + ":";
      assert (Listed(all) + ":")[..|Listed(all)|] == Listed(all);
      if tail != [] {
        RunTail(spaces, spec, n, |spec|, Closed(all));
        LibsSet(spaces, spec, n);
        assert spec[n + 1..] == tail[1..];
        LibsKept(spaces, spec, n + 1, |spec|);
      }
    }
  }

  lemma LibsSet(spaces: seq<Namespace>, spec: string, n: nat)
    requires n + 1 < |spec| && spec[n] == '@' && Run(spaces, spec, n).Some? && Run(spaces, spec, n).value.open.None?
    ensures Libs(spaces, spec, n + 1) == Take(spec[n + 1..], LIBS_MAX - 1)
  {
  }

  lemma RunNone(spaces: seq<Namespace>, spec: string)
    ensures Run(spaces, spec, 0) == Some(State(None, [], false, []))
  {
  }

  lemma SomeClasses(spaces: seq<Namespace>, gs: seq<Group>)
    requires Known(spaces, gs) && gs != [] && forall g :: g in gs ==> Writable(g)
    ensures Classes(spaces, gs) != []
  {
    assert gs[0] in gs;
  }
}
