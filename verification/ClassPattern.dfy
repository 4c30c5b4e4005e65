/** Class names matched against patterns (core/class.h: AG_ClassIsNamed; core/class.c:
    AG_ClassIsNamedGeneral; core/string.c: AG_Strsep). */
module ClassPattern {

  import opened CString

  const HIER_MAX := 256  // AG_OBJECT_HIER_MAX

  // The length of the first token of s
  function Cut(s: string, delim: string): (k: nat)
    ensures k <= |s| && (k < |s| ==> s[k] in delim)
    ensures forall i :: 0 <= i < k ==> s[i] !in delim
  {
    if s == [] || s[0] in delim then 0 else 1 + Cut(s[1..], delim)
  }

  // The tokens that delim separates, of which there is at least one
  function Tokens(s: string, delim: string): (r: seq<string>)
    ensures r != []
  {
    var k := Cut(s, delim);
    if k == |s| then [s] else [s[..k]] + Tokens(s[k + 1..], delim)
  }

  // AG_Strsep, on the string s that starts at start
  method Strsep(a: array<char>, start: nat, delim: string, ghost s: string) returns (next: nat, more: bool)
    requires Holds(a, start, s) && NoNul(delim)
    modifies a
    ensures var k := Cut(s, delim);
      && Holds(a, start, s[..k]) && more == (k < |s|)
      && (more ==> next == start + k + 1 && Holds(a, next, s[k + 1..]))
  {
    ghost var i := 0;
    next := start;
    while true
      invariant next == start + i && i <= |s| && Holds(a, start, s) && a[..] == old(a[..])
      invariant forall j :: 0 <= j < i ==> s[j] !in delim
      decreases |s| - i
    {
      assert i < |s| ==> a[start..start + |s|][i] == s[i];
      var c := a[next];
      next := next + 1;
      var spanp := 0;
      while true
        invariant spanp <= |delim| && c !in delim[..spanp]
        decreases |delim| - spanp
      {
        var sc := if spanp < |delim| then delim[spanp] else '\0';
        if sc == c {
          CutIs(s, delim, i);
          more := c != '\0';
          if more {
            a[next - 1] := '\0';
            assert a[next..start + |s|] == s[i + 1..];
          }
          assert a[start..start + i] == s[..i];
          return;
        }
        if sc == '\0' {
          break;
        }
        spanp := spanp + 1;
      }
      assert delim[..spanp] == delim;
      i := i + 1;
    }
  }

  lemma {:induction false} CutIs(s: string, delim: string, k: nat)
    requires k <= |s| && (forall i :: 0 <= i < k ==> s[i] !in delim) && (k < |s| ==> s[k] in delim)
    ensures Cut(s, delim) == k
  {
    if k > 0 { CutIs(s[1..], delim, k - 1); }
  }

  // strcmp, of the strings s and t
  method Equal(a: array<char>, i: nat, b: array<char>, j: nat, ghost s: string, ghost t: string) returns (r: bool)
    requires Holds(a, i, s) && Holds(b, j, t)
    ensures r == (s == t)
  {
    var k := 0;
    while true
      invariant k <= |s| && k <= |t| && s[..k] == t[..k]
      decreases |s| - k
    {
      assert k < |s| ==> a[i..i + |s|][k] == s[k];
      assert k < |t| ==> b[j..j + |t|][k] == t[k];
      if a[i + k] != b[j + k] {
        return false;
      }
      if a[i + k] == '\0' {
        assert s[..k] == s && t[..k] == t;
        return true;
      }
      k := k + 1;
    }
  }

  // The tokens of a class compared with those of a pattern, as many as both have
  predicate Matches(c: seq<string>, s: seq<string>) {
    forall i :: 0 <= i < |c| && i < |s| ==> c[i] == "*" || c[i] == s[i]
  }

  // The tokens that are left to AG_Strsep
  function Left(more: bool, s: string): seq<string> {
    if more then Tokens(s, ":") else []
  }

  method NextToken(a: array<char>, at: nat, ghost s: string)
    returns (next: nat, more: bool, ghost token: string, ghost rest: string)
    requires Holds(a, at, s)
    modifies a
    ensures Holds(a, at, token) && (more ==> Holds(a, next, rest) && |rest| < |s|)
    ensures Tokens(s, ":") == [token] + Left(more, rest)
  {
    next, more := Strsep(a, at, ":", s);
    ghost var k := Cut(s, ":");
    token, rest := s[..k], if more then s[k + 1..] else [];
  }

  // AG_ClassIsNamedGeneral
  method ClassIsNamedGeneral(hier: string, cn: string) returns (r: bool)
    requires NoNul(hier) && NoNul(cn)
    ensures r == Matches(Tokens(Take(cn, HIER_MAX - 1), ":"), Tokens(Take(hier, HIER_MAX - 1), ":"))
  {
    hide Holds, Tokens, Matches;
    var cname, nname := new char[HIER_MAX], new char[HIER_MAX];
    var _ := Strlcpy(cname, cn, HIER_MAX);
    var _ := Strlcpy(nname, hier, HIER_MAX);
    ghost var cs, ns := Take(cn, HIER_MAX - 1), Take(hier, HIER_MAX - 1);
    ghost var want := Matches(Tokens(cs, ":"), Tokens(ns, ":"));
    ghost var ct, nt;
    var cp, np, cMore, nMore := 0, 0, true, true;
    while cMore
      invariant cMore ==> Holds(cname, cp, cs)
      invariant nMore ==> Holds(nname, np, ns)
      invariant Matches(Left(cMore, cs), Left(nMore, ns)) == want
      decreases if cMore then |cs| + 1 else 0
    {
      var c := cp;
      cp, cMore, ct, cs := NextToken(cname, cp, cs);
      if !nMore {
        MatchesNone([ct] + Left(cMore, cs));
        return true;
      }
      var s := np;
      np, nMore, nt, ns := NextToken(nname, np, ns);
      MatchesStep(ct, Left(cMore, cs), nt, Left(nMore, ns));
      if !IsStar(cname, c, ct) {
        var same := Equal(cname, c, nname, s, ct, nt);
        if !same {
          return false;
        }
      }
    }
    MatchesNone(Left(nMore, ns));
    r := true;
  }

  lemma MatchesNone(c: seq<string>)
    ensures Matches(c, []) && Matches([], c)
  {
  }

  function IsStar(a: array<char>, i: nat, ghost s: string): (r: bool)
    requires Holds(a, i, s)
    reads a
    ensures r == (s == "*")
  {
    assert s != [] ==> a[i..i + |s|][0] == s[0];
    assert |s| > 1 ==> a[i..i + |s|][1] == s[1] && s[1] in s;
    a[i] == '*' && a[i + 1] == '\0'
  }

  lemma MatchesStep(ct: string, c: seq<string>, st: string, s: seq<string>)
    ensures Matches([ct] + c, [st] + s) <==> (ct == "*" || ct == st) && Matches(c, s)
  {
    var cs, ss := [ct] + c, [st] + s;
    forall i | 0 <= i < |c| && i < |s|
      ensures c[i] == cs[i + 1] && s[i] == ss[i + 1]
    {
    }
    assert cs[0] == ct && ss[0] == st;
    assert Matches(cs, ss) ==> Matches(c, s) by {
      if Matches(cs, ss) {
        forall i | 0 <= i < |c| && i < |s|
          ensures c[i] == "*" || c[i] == s[i]
        {
          assert cs[i + 1] == "*" || cs[i + 1] == ss[i + 1];
        }
      }
    }
  }

  // ---- The fast path ----

  function Wildcards(s: string): nat {
    if s == [] then 0 else (if s[0] == '*' then 1 else 0) + Wildcards(s[1..])
  }

  // hier is p or starts with p and the separator d.
  predicate Under(hier: string, p: string, d: char) {
    |p| <= |hier| && hier[..|p|] == p && (|hier| == |p| || hier[|p|] == d)
  }

  predicate General(hier: string, pat: string) {
    Matches(Tokens(Take(pat, HIER_MAX - 1), ":"), Tokens(Take(hier, HIER_MAX - 1), ":"))
  }

  // What AG_ClassIsNamed decides: on the whole string without wildcards, on the front of it for
  // a single one at the end, and with the general function otherwise
  predicate Named(hier: string, pat: string) {
    var n := |pat|;
    if Wildcards(pat) == 0 then hier == pat
    else if Wildcards(pat) == 1 && n > 0 && pat[n - 1] == '*' then
      n >= 2 && pat[n - 2] == ':' && (n == 2 || Under(hier, pat[..n - 2], ':'))
    else if Wildcards(pat) == 1 && n > 0 && pat[0] == '*' then true
    else General(hier, pat)
  }

  // AG_ClassIsNamed
  method ClassIsNamed(hier: string, pat: string) returns (r: bool)
    requires NoNul(hier) && NoNul(pat)
    ensures r == Named(hier, pat)
  {
    var nwild := 0;
    assert pat[0..] == pat;
    for c := 0 to |pat|
      invariant nwild + Wildcards(pat[c..]) == Wildcards(pat)
    {
      assert pat[c..][1..] == pat[c + 1..];
      if pat[c] == '*' {
        nwild := nwild + 1;
      }
    }
    if nwild == 0 {
      return hier == pat;
    }
    if nwild == 1 {
      if pat[|pat| - 1] == '*' {
        for c := 0 to |pat|
          invariant c < |pat| - 1 || |pat| < 2 || !Named(hier, pat)
        {
          if pat[c] != ':' || c + 1 == |pat| || pat[c + 1] != '*' || c + 2 != |pat| {
            continue;
          }
          var patSize := c;
          if c == 0 {
            return true;
          }
          if patSize <= |hier| && hier[..patSize] == pat[..patSize] && (patSize == |hier| || hier[patSize] == ':') {
            return true;
          }
        }
        return false;
      } else if pat[0] == '*' {
        return true;
      }
    }
    r := ClassIsNamedGeneral(hier, pat);
  }

  // A string lies under another if and only if its first tokens are those of the other.
  lemma UnderTokens(hier: string, p: string)
    ensures Under(hier, p, ':') <==> Tokens(p, ":") <= Tokens(hier, ":")
  {
    if Under(hier, p, ':') { UnderFirst(hier, p, ':'); }
    if Tokens(p, ":") <= Tokens(hier, ":") { FirstUnder(hier, p, ':'); }
  }

  lemma {:induction false} UnderFirst(hier: string, p: string, d: char)
    requires Under(hier, p, d)
    ensures Tokens(p, [d]) <= Tokens(hier, [d])
    decreases |p|
  {
    var k := Cut(p, [d]);
    CutIs(hier, [d], k);
    assert hier[..k] == p[..k];
    Split(p, d);
    Split(hier, d);
    if k < |p| {
      UnderBehind(hier, p, k, d);
      UnderFirst(hier[k + 1..], p[k + 1..], d);
    }
  }

  lemma {:induction false} FirstUnder(hier: string, p: string, d: char)
    requires Tokens(p, [d]) <= Tokens(hier, [d])
    ensures Under(hier, p, d)
    decreases |p|
  {
    var k, h := Cut(p, [d]), Cut(hier, [d]);
    Split(p, d);
    Split(hier, d);
    assert Tokens(p, [d])[0] == Tokens(hier, [d])[0];
    assert k == |p[..k]| == |hier[..h]| == h;
    if k < |p| {
      assert Tokens(p, [d])[1..] <= Tokens(hier, [d])[1..];
      UnderBehind(hier, p, k, d);
      FirstUnder(hier[k + 1..], p[k + 1..], d);
    }
  }

  // Behind a common token and separator
  lemma UnderBehind(hier: string, p: string, k: nat, d: char)
    requires k < |p| && k < |hier| && p[..k] == hier[..k] && p[k] == d == hier[k]
    ensures Under(hier, p, d) <==> Under(hier[k + 1..], p[k + 1..], d)
  {
    var a, b := hier[k + 1..], p[k + 1..];
    assert hier == hier[..k] + [d] + a && p == hier[..k] + [d] + b;
    if |p| <= |hier| {
      assert hier[..|p|] == hier[..k] + [d] + a[..|b|];
      assert b == p[k + 1..] && a[..|b|] == hier[..|p|][k + 1..];
    }
  }

  lemma Split(s: string, d: char)
    ensures var k := Cut(s, [d]);
      Tokens(s, [d]) == [s[..k]] + (if k < |s| then Tokens(s[k + 1..], [d]) else [])
    ensures var k := Cut(s, [d]); k == |s| ==> s[..k] == s
  {
    hide Cut;
    var k := Cut(s, [d]);
    if k == |s| {
      assert s[..k] == s && [s] + [] == [s];
    }
  }

  lemma {:induction false} TokensJoin(p: string, q: string, d: char)
    ensures Tokens(p + [d] + q, [d]) == Tokens(p, [d]) + Tokens(q, [d])
    decreases |p|
  {
    hide Cut;
    var s, k := p + [d] + q, Cut(p, [d]);
    CutIs(s, [d], k);
    assert s[..k] == p[..k];
    if k == |p| {
      assert s[k + 1..] == q && p[..k] == p;
    } else {
      assert s[k + 1..] == p[k + 1..] + [d] + q;
      TokensJoin(p[k + 1..], q, d);
      assert [p[..k]] + (Tokens(p[k + 1..], [d]) + Tokens(q, [d])) ==
        ([p[..k]] + Tokens(p[k + 1..], [d])) + Tokens(q, [d]);
    }
  }

  lemma OneToken(s: string, d: char)
    requires d !in s
    ensures Tokens(s, [d]) == [s]
  {
    CutIs(s, [d], |s|);
  }

  // Tokens are made of the characters of the string.
  lemma {:induction false} TokenChars(s: string, token: string, c: char)
    requires token in Tokens(s, ":") && c in token
    ensures c in s
    decreases |s|
  {
    var k := Cut(s, ":");
    if k < |s| && token != s[..k] { TokenChars(s[k + 1..], token, c); }
  }

  lemma {:induction false} WildcardsIn(s: string)
    ensures Wildcards(s) == 0 <==> '*' !in s
  {
    if s != [] { WildcardsIn(s[1..]); }
  }

  lemma {:induction false} WildcardsJoin(a: string, b: string)
    ensures Wildcards(a + b) == Wildcards(a) + Wildcards(b)
  {
    if a == [] {
      assert a + b == b;
    } else {
      assert (a + b)[1..] == a[1..] + b;
      WildcardsJoin(a[1..], b);
    }
  }

  // Token by token, names without wildcards agree as far as the shorter one goes.
  lemma MatchesPrefix(c: seq<string>, s: seq<string>)
    requires "*" !in c
    ensures Matches(c, s) <==> c <= s || s <= c
    ensures Matches(c + ["*"], s) <==> c <= s || s <= c
  {
    var w := c + ["*"];
    forall i | 0 <= i < |c|
      ensures c[i] != "*" && w[i] == c[i]
    {
      assert c[i] in c;
    }
  }

  // For a pattern P:* without other wildcards the fast path holds if and only if the tokens of
  // P are the first of the class; the general function also holds of a class that is above P,
  // and they disagree on exactly those.
  lemma FastPath(hier: string, p: string)
    requires p != [] && '*' !in p && |p| + 2 < HIER_MAX && |hier| < HIER_MAX
    ensures var c, s, pat := Tokens(p, ":"), Tokens(hier, ":"), p + ":" + "*";
      && Named(hier, pat) == (c <= s) && General(hier, pat) == (c <= s || s <= c)
      && (Named(hier, pat) == General(hier, pat) <==> !(s < c))
      && (|c| <= |s| ==> Named(hier, pat) == General(hier, pat))
  {
    hide Tokens, Matches;
    EndsInStar(hier, p);
    UnderTokens(hier, p);
    TokensJoin(p, "*", ':');
    OneToken("*", ':');
    NoStarToken(p);
    MatchesPrefix(Tokens(p, ":"), Tokens(hier, ":"));
  }

  lemma EndsInStar(hier: string, p: string)
    requires p != [] && '*' !in p
    ensures Named(hier, p + ":" + "*") == Under(hier, p, ':')
  {
    hide General, Under;
    var pat := p + ":" + "*";
    assert pat[..|pat| - 2] == p;
    WildcardsIn(p);
    WildcardsJoin(p + ":", "*");
    WildcardsJoin(p, ":");
  }

  lemma NoStarToken(p: string)
    requires '*' !in p
    ensures "*" !in Tokens(p, ":")
  {
    if "*" in Tokens(p, ":") {
      assert '*' in "*";
      TokenChars(p, "*", '*');
    }
  }

  // A pattern without wildcards names the class with the same tokens only, and the general
  // function those above and below as well.
  lemma ExactName(hier: string, pat: string)
    requires '*' !in pat && |pat| < HIER_MAX && |hier| < HIER_MAX
    ensures var c, s := Tokens(pat, ":"), Tokens(hier, ":");
      Named(hier, pat) == (c == s) && General(hier, pat) == (c <= s || s <= c)
  {
    WildcardsIn(pat);
    UnderTokens(hier, pat);
    UnderTokens(pat, hier);
    NoStarToken(pat);
    MatchesPrefix(Tokens(pat, ":"), Tokens(hier, ":"));
  }

  // ---- Other single wildcards ----

  // The last token of s with x behind it
  function LastWith(c: seq<string>, x: string): seq<string>
    requires c != []
  {
    c[..|c| - 1] + [c[|c| - 1] + x]
  }

  lemma LastOf(first: string, c: seq<string>, x: string)
    requires c != []
    ensures LastWith([first] + c, x) == [first] + LastWith(c, x)
  {
  }

  lemma {:induction false} TokensEnd(p: string, x: string, d: char)
    requires d !in x
    ensures Tokens(p + x, [d]) == LastWith(Tokens(p, [d]), x)
    decreases |p|
  {
    hide Tokens, Cut;
    var k := Cut(p, [d]);
    Split(p, d);
    if k == |p| {
      OneToken(p + x, d);
    } else {
      CutIs(p + x, [d], k);
      Split(p + x, d);
      assert (p + x)[..k] == p[..k] && (p + x)[k + 1..] == p[k + 1..] + x;
      TokensEnd(p[k + 1..], x, d);
      LastOf(p[..k], Tokens(p[k + 1..], [d]), x);
    }
  }

  // A token of the pattern that no token of the class is
  lemma NoMatch(c: seq<string>, s: seq<string>, i: nat)
    requires i < |c| && c[i] != "*" && c[i] !in s
    ensures Matches(c, s) ==> |s| <= i
  {
    assert i < |s| ==> s[i] in s;
  }

  lemma NotAToken(hier: string, token: string)
    requires '*' !in hier && '*' in token
    ensures token !in Tokens(hier, ":")
  {
    if token in Tokens(hier, ":") { TokenChars(hier, token, '*'); }
  }

  // A wildcard at the start, and not at the end: the fast path holds of every class, and the
  // general function of those that agree behind the first token, as far as both go, if the
  // wildcard is a token of its own, and of none if it is not.
  lemma WildcardFirst(hier: string, q: string)
    requires q != [] && '*' !in q && '*' !in hier && |q| + 1 < HIER_MAX && |hier| < HIER_MAX
    ensures Named(hier, "*" + q)
    ensures var s := Tokens(hier, ":")[1..];
      General(hier, "*" + q) <==> q[0] == ':' && (Tokens(q[1..], ":") <= s || s <= Tokens(q[1..], ":"))
  {
    hide Tokens, Matches, Named, General;
    StarAndRest(hier, q);
    GeneralIs(hier, "*" + q);
    if q[0] == ':' {
      StarToken(Tokens(hier, ":"), q[1..], ':');
      StarColon(q);
    } else {
      FirstHasStar(q, ':');
      NotAToken(hier, Tokens("*" + q, ":")[0]);
      NoMatch(Tokens("*" + q, ":"), Tokens(hier, ":"), 0);
    }
  }

  lemma GeneralIs(hier: string, pat: string)
    requires |pat| < HIER_MAX && |hier| < HIER_MAX
    ensures General(hier, pat) <==> Matches(Tokens(pat, ":"), Tokens(hier, ":"))
  {
  }

  lemma StarColon(q: string)
    requires q != [] && q[0] == ':'
    ensures "*" + q == "*" + [':'] + q[1..]
  {
  }

  lemma StarToken(h: seq<string>, r: string, d: char)
    requires h != [] && '*' !in r && d == ':'
    ensures Matches(Tokens("*" + [d] + r, [d]), h) <==> Tokens(r, [d]) <= h[1..] || h[1..] <= Tokens(r, [d])
  {
    hide Tokens, Matches;
    assert h == [h[0]] + h[1..];
    TokensJoin("*", r, d);
    OneToken("*", d);
    MatchesStep("*", Tokens(r, [d]), h[0], h[1..]);
    NoStarToken(r);
    MatchesPrefix(Tokens(r, [d]), h[1..]);
  }

  lemma StarAndRest(hier: string, q: string)
    requires q != [] && '*' !in q
    ensures Named(hier, "*" + q)
  {
    hide General, Under;
    var pat := "*" + q;
    WildcardsJoin("*", q);
    WildcardsIn(q);
    assert pat[|pat| - 1] == q[|q| - 1];
  }

  lemma FirstHasStar(q: string, d: char)
    requires q != [] && q[0] != d && d != '*'
    ensures var t := Tokens("*" + q, [d])[0]; t != "*" && '*' in t
  {
    var s := "*" + q;
    assert s[0] == '*' && s[1] == q[0];
    Split(s, d);
    var k := Cut(s, [d]);
    assert k >= 2;
    assert s[..k][0] == '*';
  }

  // A wildcard at the end, and no colon before it: the fast path holds of no class, and the
  // general function of those whose tokens are all among the tokens before the last.
  lemma WildcardLast(hier: string, p: string)
    requires '*' !in p && '*' !in hier && p != [] && p[|p| - 1] != ':' && |p| + 1 < HIER_MAX && |hier| < HIER_MAX
    ensures !Named(hier, p + "*")
    ensures var c := Tokens(p, ":"); General(hier, p + "*") <==> Tokens(hier, ":") <= c[..|c| - 1]
  {
    hide Tokens, Matches;
    NoColonBefore(hier, p);
    var c, s := Tokens(p, ":"), Tokens(hier, ":");
    var n := |c| - 1;
    TokensEnd(p, "*", ':');
    LastNotEmpty(p, ':');
    assert '*' in c[n] + "*" by { assert (c[n] + "*")[|c[n]|] == '*'; }
    NotAToken(hier, c[n] + "*");
    NoMatch(LastWith(c, "*"), s, n);
    NoStarToken(p);
    assert forall t :: t in c[..n] ==> t in c;
    MatchesPrefix(c[..n], s);
    MatchesFront(c[..n], c[n] + "*", s);
  }

  lemma NoColonBefore(hier: string, p: string)
    requires '*' !in p && p != [] && p[|p| - 1] != ':'
    ensures !Named(hier, p + "*")
  {
    hide General, Under;
    WildcardsJoin(p, "*");
    WildcardsIn(p);
  }

  lemma {:induction false} LastNotEmpty(p: string, d: char)
    requires p != [] && p[|p| - 1] != d
    ensures var c := Tokens(p, [d]); c[|c| - 1] != ""
    decreases |p|
  {
    var k := Cut(p, [d]);
    Split(p, d);
    if k < |p| { LastNotEmpty(p[k + 1..], d); }
  }

  // One more token of the pattern does not matter to a class that has no more than those before.
  lemma MatchesFront(c: seq<string>, t: string, s: seq<string>)
    ensures |s| <= |c| ==> (Matches(c + [t], s) <==> Matches(c, s))
    ensures |s| <= |c| && s <= c ==> Matches(c, s)
    ensures |s| <= |c| && c <= s ==> s <= c
  {
    forall i | 0 <= i < |c|
      ensures (c + [t])[i] == c[i]
    {
    }
  }

  // Nothing before the colon: the fast path holds of every class, the general function of those
  // with an empty first token.
  lemma WildcardOnly(hier: string)
    requires |hier| < HIER_MAX
    ensures Named(hier, ":*") && (General(hier, ":*") <==> Tokens(hier, ":")[0] == "")
    ensures !Named(hier, "*") && General(hier, "*")
  {
    hide Tokens, Matches;
    var h := Tokens(hier, ":");
    assert h == [h[0]] + h[1..] && ":*" == "" + ":" + "*";
    TokensJoin("", "*", ':');
    OneToken("", ':');
    OneToken("*", ':');
    MatchesStep("", ["*"], h[0], h[1..]);
    StarFits(h);
    StarFits(h[1..]);
    assert [""] + ["*"] == ["", "*"];
  }

  lemma StarFits(s: seq<string>)
    ensures Matches(["*"], s)
  {
  }
}
