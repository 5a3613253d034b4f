/** Slash-separated paths: the normal form of a path, defined on its components. */
module PathSpec {
  import opened Basics

  type Text = seq<Byte>

  const SLASH: Byte := 47
  const DOT: Byte := 46
  const HERE: Text := [DOT]
  const UP: Text := [DOT, DOT]

  /** The length of the first component. */
  function Head(s: Text): (k: nat)
    ensures k <= |s| && SLASH !in s[..k] && (k < |s| ==> s[k] == SLASH)
  {
    if s == [] || s[0] == SLASH then 0
    else
      var k := Head(s[1..]);
      assert s[..k + 1] == [s[0]] + s[1..][..k];
      k + 1
  }

  /** The components between the slashes, empty ones included. */
  function Components(s: Text): seq<Text>
    decreases |s|
  {
    var k := Head(s);
    if k == |s| then [s] else [s[..k]] + Components(s[k + 1..])
  }

  predicate Rooted(s: Text) {
    s != [] && s[0] == SLASH
  }

  /** What one component does to the components kept so far: an empty one or "." nothing, ".." takes the
      last one away, and stays only where there is nothing to take away in a path that is not rooted. */
  function Apply(rooted: bool, st: seq<Text>, c: Text): seq<Text> {
    if c == [] || c == HERE then st
    else if c != UP then st + [c]
    else if st != [] && st[|st| - 1] != UP then st[..|st| - 1]
    else if rooted then st
    else st + [c]
  }

  function Fold(rooted: bool, st: seq<Text>, cs: seq<Text>): seq<Text>
    decreases |cs|
  {
    if cs == [] then st else Fold(rooted, Apply(rooted, st, cs[0]), cs[1..])
  }

  function Join(st: seq<Text>): Text {
    if st == [] then [] else if |st| == 1 then st[0] else Join(st[..|st| - 1]) + [SLASH] + st[|st| - 1]
  }

  /** A path of the given components, and "." for none. */
  function Render(rooted: bool, st: seq<Text>): Text {
    var s := (if rooted then [SLASH] else []) + Join(st);
    if s == [] then HERE else s
  }

  function Stack(p: Text): seq<Text> {
    Fold(Rooted(p), [], Components(p))
  }

  function Cleaned(p: Text): Text {
    Render(Rooted(p), Stack(p))
  }

  predicate Name(c: Text) {
    c != [] && c != HERE && c != UP && SLASH !in c
  }

  /** A number of ".." and then names; no ".." under the root. */
  ghost predicate Normal(rooted: bool, st: seq<Text>, ups: nat) {
    ups <= |st| && (rooted ==> ups == 0) && (forall i | 0 <= i < ups :: st[i] == UP) &&
    (forall i | ups <= i < |st| :: Name(st[i]))
  }

  ghost function UpsAfter(rooted: bool, st: seq<Text>, ups: nat, c: Text): nat {
    if c == UP && |st| == ups && !rooted then ups + 1 else ups
  }

  lemma ApplyNormal(rooted: bool, st: seq<Text>, ups: nat, c: Text)
    requires Normal(rooted, st, ups) && SLASH !in c
    ensures Normal(rooted, Apply(rooted, st, c), UpsAfter(rooted, st, ups, c))
  {
  }

  lemma {:induction false} FoldNormal(rooted: bool, st: seq<Text>, ups: nat, cs: seq<Text>) returns (ups': nat)
    requires Normal(rooted, st, ups) && forall i | 0 <= i < |cs| :: SLASH !in cs[i]
    ensures Normal(rooted, Fold(rooted, st, cs), ups')
    decreases |cs|
  {
    ups' := ups;
    if cs != [] {
      ApplyNormal(rooted, st, ups, cs[0]);
      ups' := FoldNormal(rooted, Apply(rooted, st, cs[0]), UpsAfter(rooted, st, ups, cs[0]), cs[1..]);
    }
  }

  lemma {:induction false} ComponentsPlain(s: Text)
    ensures forall i | 0 <= i < |Components(s)| :: SLASH !in Components(s)[i]
    decreases |s|
  {
    var k := Head(s);
    assert k == |s| ==> s[..k] == s;
    if k < |s| {
      ComponentsPlain(s[k + 1..]);
    }
  }

  lemma StackNormal(p: Text) returns (ups: nat)
    ensures Normal(Rooted(p), Stack(p), ups)
  {
    ComponentsPlain(p);
    ups := FoldNormal(Rooted(p), [], 0, Components(p));
  }

  lemma {:induction false} FoldAppend(rooted: bool, st: seq<Text>, cs: seq<Text>, ds: seq<Text>)
    ensures Fold(rooted, st, cs + ds) == Fold(rooted, Fold(rooted, st, cs), ds)
    decreases |cs|
  {
    if cs == [] {
      assert cs + ds == ds;
    } else {
      assert (cs + ds)[1..] == cs[1..] + ds;
      FoldAppend(rooted, Apply(rooted, st, cs[0]), cs[1..], ds);
    }
  }

  lemma FoldOne(rooted: bool, st: seq<Text>, c: Text)
    ensures Fold(rooted, st, [c]) == Apply(rooted, st, c)
  {
  }

  lemma FoldLast(rooted: bool, st: seq<Text>, cs: seq<Text>)
    requires cs != []
    ensures Fold(rooted, st, cs) == Apply(rooted, Fold(rooted, st, cs[..|cs| - 1]), cs[|cs| - 1])
  {
    assert cs == cs[..|cs| - 1] + [cs[|cs| - 1]];
    FoldAppend(rooted, st, cs[..|cs| - 1], [cs[|cs| - 1]]);
  }

  lemma FoldCons(rooted: bool, st: seq<Text>, c: Text, cs: seq<Text>)
    ensures Fold(rooted, st, [c] + cs) == Fold(rooted, Apply(rooted, st, c), cs)
  {
    assert ([c] + cs)[1..] == cs;
  }

  /** Folding the components of a normal form keeps them. */
  lemma {:induction false} FoldSame(rooted: bool, st: seq<Text>, ups: nat)
    requires Normal(rooted, st, ups)
    ensures Fold(rooted, [], st) == st
    decreases |st|
  {
    if st != [] {
      var front := st[..|st| - 1];
      FoldSame(rooted, front, if ups == |st| then ups - 1 else ups);
      FoldLast(rooted, [], st);
    }
  }

  lemma {:induction false} HeadOf(c: Text, rest: Text)
    requires SLASH !in c && (rest == [] || rest[0] == SLASH)
    ensures Head(c + rest) == |c|
    decreases |c|
  {
    if c == [] {
      assert c + rest == rest;
    } else {
      assert (c + rest)[1..] == c[1..] + rest;
      HeadOf(c[1..], rest);
    }
  }

  lemma ComponentsCut(c: Text, rest: Text)
    requires SLASH !in c
    ensures Components(c + [SLASH] + rest) == [c] + Components(rest)
  {
    var s := c + [SLASH] + rest;
    assert s == c + ([SLASH] + rest);
    HeadOf(c, [SLASH] + rest);
    assert s[..|c|] == c && s[|c| + 1..] == rest;
  }

  lemma ComponentsSingle(c: Text)
    requires SLASH !in c
    ensures Components(c) == [c]
  {
    HeadOf(c, []);
    assert c + [] == c;
  }

  lemma Regroup(c: Text, rest: Text, t: Text)
    ensures c + [SLASH] + rest + [SLASH] + t == c + [SLASH] + (rest + [SLASH] + t)
  {
  }

  lemma ComponentsJoinStep(c: Text, rest: Text, t: Text, s: Text, x: seq<Text>, y: seq<Text>)
    requires SLASH !in c && s == c + [SLASH] + rest && Components(rest + [SLASH] + t) == x + y
    ensures Components(s + [SLASH] + t) == [c] + x + y
  {
    Regroup(c, rest, t);
    ComponentsCut(c, rest + [SLASH] + t);
    Assoc(c, x, y);
  }

  lemma Assoc(c: Text, x: seq<Text>, y: seq<Text>)
    ensures [c] + (x + y) == [c] + x + y
  {
  }

  /** The components of two paths put together with a slash are those of the one and then the other. */
  lemma {:induction false} ComponentsJoin(s: Text, t: Text)
    ensures Components(s + [SLASH] + t) == Components(s) + Components(t)
    decreases |s|
  {
    var k := Head(s);
    if k == |s| {
      assert s[..k] == s;
      ComponentsCut(s, t);
    } else {
      var c, rest := s[..k], s[k + 1..];
      ComponentsJoin(rest, t);
      ComponentsJoinStep(c, rest, t, s, Components(rest), Components(t));
    }
  }

  lemma {:induction false} ComponentsOfJoin(st: seq<Text>)
    requires st != [] && forall i | 0 <= i < |st| :: SLASH !in st[i]
    ensures Components(Join(st)) == st
    decreases |st|
  {
    var last := st[|st| - 1];
    ComponentsSingle(last);
    if |st| > 1 {
      ComponentsOfJoin(st[..|st| - 1]);
      ComponentsJoin(Join(st[..|st| - 1]), last);
      assert st == st[..|st| - 1] + [last];
    }
  }

  lemma {:induction false} JoinStart(st: seq<Text>)
    requires st != [] && forall i | 0 <= i < |st| :: st[i] != []
    ensures Join(st) != [] && Join(st)[0] == st[0][0]
    decreases |st|
  {
    if |st| > 1 {
      JoinStart(st[..|st| - 1]);
    }
  }

  lemma RootedStack(s: Text)
    ensures Rooted([SLASH] + s) && Stack([SLASH] + s) == Fold(true, [], Components(s))
  {
    assert [SLASH] + s == [] + [SLASH] + s;
    ComponentsCut([], s);
    FoldCons(true, [], [], Components(s));
  }

  lemma RenderNone(rooted: bool)
    ensures Rooted(Render(rooted, [])) == rooted && Stack(Render(rooted, [])) == []
  {
    if rooted {
      RootedStack([]);
      ComponentsSingle([]);
      FoldOne(true, [], []);
      assert [SLASH] + Join([]) == [SLASH] + [];
    } else {
      ComponentsSingle(HERE);
      FoldOne(false, [], HERE);
    }
  }

  /** Reading a normal form back gives its components. */
  lemma RenderBack(rooted: bool, st: seq<Text>, ups: nat)
    requires Normal(rooted, st, ups)
    ensures Rooted(Render(rooted, st)) == rooted && Stack(Render(rooted, st)) == st
  {
    if st == [] {
      RenderNone(rooted);
    } else {
      var s := Join(st);
      assert s != [] && s[0] != SLASH by {
        JoinStart(st);
      }
      assert Components(s) == st by {
        ComponentsOfJoin(st);
      }
      FoldSame(rooted, st, ups);
      if rooted {
        assert Render(rooted, st) == [SLASH] + s;
        RootedStack(s);
      } else {
        assert Render(rooted, st) == s;
      }
    }
  }

  /** Cleaning twice is cleaning once, and a cleaned path is rooted exactly when the path was. */
  lemma CleanedTwice(p: Text)
    ensures Rooted(Cleaned(p)) == Rooted(p) && Stack(Cleaned(p)) == Stack(p) && Cleaned(Cleaned(p)) == Cleaned(p)
  {
    var ups := StackNormal(p);
    RenderBack(Rooted(p), Stack(p), ups);
  }

  // What a path means: where it leads from a directory given by the names on the way to it.

  function Resolve(cwd: seq<Text>, p: Text): seq<Text> {
    Fold(true, if Rooted(p) then [] else cwd, Components(p))
  }

  /** Folding a path and then following it is following it. */
  lemma {:induction false} FollowFolded(rooted: bool, st: seq<Text>, ups: nat, cs: seq<Text>)
    requires Normal(rooted, st, ups) && forall i | 0 <= i < |cs| :: SLASH !in cs[i]
    ensures Fold(rooted, st, Fold(false, [], cs)) == Fold(rooted, st, cs)
    decreases |cs|
  {
    if cs != [] {
      var front, c := cs[..|cs| - 1], cs[|cs| - 1];
      FollowFolded(rooted, st, ups, front);
      FoldLast(rooted, st, cs);
      FoldLast(false, [], cs);
      var m := Fold(false, [], front);
      var _ := FoldNormal(false, [], 0, front);
      FollowApplied(rooted, st, m, c);
    }
  }

  lemma FollowApplied(rooted: bool, st: seq<Text>, m: seq<Text>, c: Text)
    requires forall i | 0 <= i < |m| :: m[i] == UP || Name(m[i])
    ensures Fold(rooted, st, Apply(false, m, c)) == Apply(rooted, Fold(rooted, st, m), c)
  {
    if c != [] && c != HERE {
      if c == UP && m != [] && m[|m| - 1] != UP {
        FoldLast(rooted, st, m);
      } else {
        FoldLast(rooted, st, m + [c]);
        assert (m + [c])[..|m|] == m;
      }
    }
  }

  /** A cleaned path leads from every directory to where the path leads. */
  lemma CleanedLeadsSame(cwd: seq<Text>, p: Text)
    requires forall i | 0 <= i < |cwd| :: Name(cwd[i])
    ensures Resolve(cwd, Cleaned(p)) == Resolve(cwd, p)
  {
    CleanedTwice(p);
    ComponentsPlain(p);
    ComponentsPlain(Cleaned(p));
    if !Rooted(p) {
      FollowFolded(true, cwd, 0, Components(p));
      FollowFolded(true, cwd, 0, Components(Cleaned(p)));
    }
  }

  lemma DropName(cwd: seq<Text>, k: nat, none: seq<Text>)
    requires k < |cwd| && none == [] && Name(cwd[k])
    ensures Apply(true, cwd[..k + 1] + none, UP) == cwd[..k] + []
  {
    assert cwd[..k + 1] + none == cwd[..k + 1];
    assert cwd[..k + 1][..k] == cwd[..k];
  }

  lemma AddName(cwd: seq<Text>, st: seq<Text>, c: Text)
    requires Name(c)
    ensures Apply(true, cwd + st, c) == cwd + (st + [c])
  {
    assert cwd + st + [c] == cwd + (st + [c]);
  }

  /** Where a normal form leads: its ".." take names from the end of the directory, its names are added. */
  lemma {:induction false} FollowNormal(cwd: seq<Text>, st: seq<Text>, ups: nat)
    requires (forall i | 0 <= i < |cwd| :: Name(cwd[i])) && Normal(false, st, ups) && ups <= |cwd|
    ensures Fold(true, cwd, st) == cwd[..|cwd| - ups] + st[ups..]
    decreases |st|
  {
    if st == [] {
      assert cwd[..|cwd|] + [] == cwd;
    } else {
      var front := st[..|st| - 1];
      FoldLast(true, cwd, st);
      if ups == |st| {
        FollowNormal(cwd, front, ups - 1);
        DropName(cwd, |cwd| - ups, front[ups - 1..]);
        assert st[ups..] == [];
      } else {
        FollowNormal(cwd, front, ups);
        AddName(cwd[..|cwd| - ups], front[ups..], st[|st| - 1]);
        assert front[ups..] + [st[|st| - 1]] == st[ups..];
      }
    }
  }

  lemma ResolveNormal(cwd: seq<Text>, p: Text, ups: nat)
    requires (forall i | 0 <= i < |cwd| :: Name(cwd[i])) && Normal(Rooted(p), Stack(p), ups) && ups <= |cwd|
    ensures Resolve(cwd, p) == (if Rooted(p) then [] else cwd[..|cwd| - ups]) + Stack(p)[ups..]
  {
    if !Rooted(p) {
      ComponentsPlain(p);
      FollowFolded(true, cwd, 0, Components(p));
      FollowNormal(cwd, Stack(p), ups);
    }
  }

  function Longest(st: seq<Text>): (n: nat)
    ensures forall i | 0 <= i < |st| :: |st[i]| <= n
  {
    if st == [] then 0
    else
      var n := Longest(st[1..]);
      assert forall i | 0 < i < |st| :: st[i] == st[1..][i - 1];
      if |st[0]| > n then |st[0]| else n
  }

  /** A directory far from the root none of whose names occurs in two given paths. */
  lemma Strange(p: seq<Text>, q: seq<Text>, n: nat) returns (cwd: seq<Text>)
    ensures |cwd| == n && forall i | 0 <= i < n :: Name(cwd[i]) && cwd[i] !in p && cwd[i] !in q
  {
    var size := Longest(p) + Longest(q) + 3;
    var name: Text := seq(size, _ => 97);
    cwd := seq(n, _ => name);
  }

  /** Keeping more of a strange directory leads elsewhere. */
  lemma Apart(cwd: seq<Text>, k: nat, l: seq<Text>, m: nat, r: seq<Text>)
    requires m < k <= |cwd| && forall i | 0 <= i < |cwd| :: cwd[i] !in r
    ensures cwd[..k] + l != cwd[..m] + r
  {
    if r != [] {
      assert (cwd[..k] + l)[m] == cwd[m] && (cwd[..m] + r)[m] == r[0];
    }
  }

  /** Two normal forms that lead to the same place from a strange directory are the same. */
  lemma SameNormal(cwd: seq<Text>, p: seq<Text>, a: nat, q: seq<Text>, b: nat)
    requires Normal(false, p, a) && Normal(false, q, b) && |cwd| > a + b
    requires forall i | 0 <= i < |cwd| :: cwd[i] !in p && cwd[i] !in q
    requires cwd[..|cwd| - a] + p[a..] == cwd[..|cwd| - b] + q[b..]
    ensures p == q
  {
    if a < b {
      Apart(cwd, |cwd| - a, p[a..], |cwd| - b, q[b..]);
    } else if b < a {
      Apart(cwd, |cwd| - b, q[b..], |cwd| - a, p[a..]);
    } else {
      var l, r := cwd[..|cwd| - a] + p[a..], cwd[..|cwd| - b] + q[b..];
      assert p[a..] == l[|cwd| - a..] && q[b..] == r[|cwd| - b..];
      assert p == p[..a] + p[a..] && q == q[..b] + q[b..];
    }
  }

  /** Two paths are cleaned to the same path exactly when they lead to the same place from every
      directory. */
  lemma CleanedDecides(p: Text, q: Text)
    ensures Cleaned(p) == Cleaned(q) <==>
            forall cwd: seq<Text> | forall i | 0 <= i < |cwd| :: Name(cwd[i]) :: Resolve(cwd, p) == Resolve(cwd, q)
  {
    if Cleaned(p) == Cleaned(q) {
      forall cwd: seq<Text> | forall i | 0 <= i < |cwd| :: Name(cwd[i]) ensures Resolve(cwd, p) == Resolve(cwd, q) {
        CleanedLeadsSame(cwd, p);
        CleanedLeadsSame(cwd, q);
      }
    } else {
      var a := StackNormal(p);
      var b := StackNormal(q);
      var cwd := Strange(Stack(p), Stack(q), a + b + 1);
      ResolveNormal(cwd, p, a);
      ResolveNormal(cwd, q, b);
      if Resolve(cwd, p) == Resolve(cwd, q) {
        SamePlace(cwd, p, a, q, b);
      }
    }
  }

  lemma SamePlace(cwd: seq<Text>, p: Text, a: nat, q: Text, b: nat)
    requires Normal(Rooted(p), Stack(p), a) && Normal(Rooted(q), Stack(q), b) && |cwd| > a + b
    requires forall i | 0 <= i < |cwd| :: cwd[i] !in Stack(p) && cwd[i] !in Stack(q)
    requires (if Rooted(p) then [] else cwd[..|cwd| - a]) + Stack(p)[a..] ==
             (if Rooted(q) then [] else cwd[..|cwd| - b]) + Stack(q)[b..]
    ensures Cleaned(p) == Cleaned(q)
  {
    var l, r := Stack(p)[a..], Stack(q)[b..];
    assert [] + l == cwd[..0] + l == l && [] + r == cwd[..0] + r == r;
    if !Rooted(p) && !Rooted(q) {
      SameNormal(cwd, Stack(p), a, Stack(q), b);
    } else if Rooted(p) && !Rooted(q) {
      Apart(cwd, |cwd| - b, r, 0, l);
    } else if !Rooted(p) {
      Apart(cwd, |cwd| - a, l, 0, r);
    }
  }

  // Length.

  /** The length of the components with a slash after each. */
  function Size(st: seq<Text>): nat {
    if st == [] then 0 else Size(st[..|st| - 1]) + |st[|st| - 1]| + 1
  }

  lemma SizeAppend(st: seq<Text>, c: Text)
    ensures Size(st + [c]) == Size(st) + |c| + 1
  {
    assert (st + [c])[..|st|] == st;
  }

  lemma {:induction false} SizeConcat(st: seq<Text>, tt: seq<Text>)
    ensures Size(st + tt) == Size(st) + Size(tt)
    decreases |tt|
  {
    if tt == [] {
      assert st + tt == st;
    } else {
      assert st + tt == (st + tt[..|tt| - 1]) + [tt[|tt| - 1]];
      SizeAppend(st + tt[..|tt| - 1], tt[|tt| - 1]);
      SizeConcat(st, tt[..|tt| - 1]);
    }
  }

  lemma {:induction false} SizeJoin(st: seq<Text>)
    ensures |Join(st)| + 1 == if st == [] then 1 else Size(st)
    decreases |st|
  {
    if |st| > 1 {
      SizeJoin(st[..|st| - 1]);
    }
  }

  lemma SizeSingle(c: Text)
    ensures Size([c]) == |c| + 1
  {
    SizeAppend([], c);
    assert [] + [c] == [c];
  }

  lemma SizeFirst(c: Text, st: seq<Text>)
    ensures Size([c] + st) == |c| + 1 + Size(st)
  {
    SizeSingle(c);
    SizeConcat([c], st);
  }

  lemma {:induction false} SizeComponents(s: Text)
    ensures Size(Components(s)) == |s| + 1
    decreases |s|
  {
    var k := Head(s);
    if k == |s| {
      SizeSingle(s);
    } else {
      SizeComponents(s[k + 1..]);
      SizeFirst(s[..k], Components(s[k + 1..]));
    }
  }

  lemma {:induction false} SizeFold(rooted: bool, st: seq<Text>, cs: seq<Text>)
    ensures Size(Fold(rooted, st, cs)) <= Size(st) + Size(cs)
    decreases |cs|
  {
    if cs != [] {
      var c, rest := cs[0], cs[1..];
      assert cs == [c] + rest;
      SizeConcat([c], rest);
      SizeSingle(c);
      SizeAppend(st, c);
      SizeFold(rooted, Apply(rooted, st, c), rest);
    }
  }

  lemma CleanedNoLonger(p: Text)
    requires p != []
    ensures |Cleaned(p)| <= |p|
  {
    SizeJoin(Stack(p));
    if Rooted(p) {
      assert p == [SLASH] + p[1..];
      RootedStack(p[1..]);
      SizeComponents(p[1..]);
      SizeFold(true, [], Components(p[1..]));
    } else {
      SizeComponents(p);
      SizeFold(false, [], Components(p));
    }
  }

  /** The cleaned path is the shortest non-empty one that leads to the same place from every directory. */
  lemma CleanedShortest(p: Text, q: Text)
    requires q != []
    requires forall cwd: seq<Text> | forall i | 0 <= i < |cwd| :: Name(cwd[i]) :: Resolve(cwd, p) == Resolve(cwd, q)
    ensures |Cleaned(p)| <= |q|
  {
    CleanedDecides(p, q);
    CleanedNoLonger(q);
  }

  function Joined(path: Text, elem: Text): Text {
    Cleaned(path + [SLASH] + elem)
  }

  /** A joined path leads to where the element leads from where the path leads; an empty path counts as
      the root, and the element as relative even if it is rooted. */
  lemma JoinedLeads(cwd: seq<Text>, path: Text, elem: Text)
    requires forall i | 0 <= i < |cwd| :: Name(cwd[i])
    ensures Resolve(cwd, Joined(path, elem)) ==
            Fold(true, if path == [] then [] else Resolve(cwd, path), Components(elem))
  {
    var p := path + [SLASH] + elem;
    CleanedLeadsSame(cwd, p);
    ComponentsJoin(path, elem);
    var start := if Rooted(p) then [] else cwd;
    FoldAppend(true, start, Components(path), Components(elem));
    if path == [] {
      ComponentsSingle([]);
      FoldOne(true, [], []);
    }
  }

  /** Cleaning the path first changes nothing, exactly when the path is not empty. */
  lemma JoinCleaned(path: Text, elem: Text)
    ensures Joined(Cleaned(path), elem) == Joined(path, elem) <==> path != []
  {
    var c := Cleaned(path);
    CleanedTwice(path);
    var p, q := path + [SLASH] + elem, c + [SLASH] + elem;
    ComponentsJoin(path, elem);
    ComponentsJoin(c, elem);
    FoldAppend(Rooted(path), [], Components(path), Components(elem));
    FoldAppend(Rooted(path), [], Components(c), Components(elem));
    CleanedTwice(p);
    CleanedTwice(q);
  }
}
