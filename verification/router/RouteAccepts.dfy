/**
 When a route is accepted: exactly if it is new and no accepted route has a parameter of
 another name where it has one.
 */
module RouteAccepts {
  import opened RouteTree
  import opened RouteTable
  import opened RouteAdd
  import opened RouteWalk
  import opened RouteRuns
  import opened RouteNames
  import opened RouteLean
  import opened RouteFinds
  import opened RouteByTable

  /** The segment of a route from `k` on. */
  function SegmentAt(route: string, k: nat): string
    requires k <= |route|
  {
    route[k..][..SegmentEnd(route[k..])]
  }

  /** Up to `k` the routes agree, and there they have parameters of different names. */
  predicate Clash(r: string, q: string, k: nat) {
    && k < |r| && k < |q| && r[..k] == q[..k] && r[k] == q[k] == ':'
    && SegmentAt(r, k) != SegmentAt(q, k)
  }

  ghost predicate Clashes(n: Node, route: string) {
    exists q, k: nat :: Routed(n, q).Some? && Clash(route, q, k)
  }

  // ----- clashes below a node

  lemma ClashSuffix(s: string, r: string, q: string, k: nat)
    ensures Clash(s + r, s + q, |s| + k) <==> Clash(r, q, k)
  {
    if k < |r| && k < |q| {
      assert (s + r)[|s| + k..] == r[k..] && (s + q)[|s| + k..] == q[k..];
      assert (s + r)[..|s| + k] == s + r[..k] && (s + q)[..|s| + k] == s + q[..k];
      assert (s + r)[..|s| + k][|s|..] == r[..k] && (s + q)[..|s| + k][|s|..] == q[..k];
    }
  }

  lemma SegmentOfName(s: string, name: string)
    requires name <= s && '/' !in name && (|name| < |s| ==> s[|name|] == '/')
    ensures SegmentAt(s, 0) == name
  {
    var e := SegmentEnd(s);
    assert s[0..] == s;
    forall j | 0 <= j < |name|
      ensures s[j] != '/'
    {
      assert name[j] in name;
    }
  }

  lemma RoutedBegins(n: Node, q: string)
    requires Routed(n, q).Some?
    ensures n.path <= q
    ensures q != n.path ==> |n.path| < |q| && Routed(n, q) == RoutedIn(n.children, q[|n.path|..])
  {
    RoutedHere(n, q);
  }

  /** What a route goes on with behind a parameter. */
  lemma ParamSegment(n: Node, q: string)
    requires Good(n) && n.kind == Param && Routed(n, q).Some?
    ensures q != "" && SegmentAt(q, 0) == n.path
  {
    WildParts(n);
    ParamBegins(n, q);
    hide Good, Routed;
    SegmentOfName(q, n.path);
  }

  lemma NoColonBehind(n: Node, k: nat)
    requires Good(n) && k < |n.path| && n.path[k] == ':'
    ensures n.kind == Param && k == 0
  {
    if n.kind == Param {
      if k > 0 {
        assert n.path[1..][k - 1] == ':' && IsWild(':');
      }
    } else {
      NoColonInside(n, k);
    }
  }

  /** No clash lies inside the path of a node that both routes pass. */
  lemma NoneInside(n: Node, route: string, q: string, k: nat)
    requires Good(n) && MayWalk(n, route) && n.path <= route && Routed(n, q).Some? && Clash(route, q, k)
    ensures k >= |n.path|
  {
    hide Good, MayWalk, Routed;
    RoutedBegins(n, q);
    if k < |n.path| {
      assert n.path[k] == route[k];
      NoColonBehind(n, k);
      WildParts(n);
      ParamSegment(n, q);
      SameParam(n, route);
      assert false;
    }
  }

  lemma SameParam(n: Node, route: string)
    requires MayWalk(n, route) && n.kind == Param
    ensures SegmentAt(route, 0) == n.path
  {
    assert Good(n);
    WildParts(n);
    SegmentOfName(route, n.path);
  }

  lemma PathThenRest(s: string, t: string)
    requires s <= t
    ensures t == s + t[|s|..]
  {
  }

  /** Clashes behind a node are those of the child the route goes into. */
  lemma ChildClashes(n: Node, route: string, i: nat)
    requires Good(n) && MayWalk(n, route) && n.path <= route && |n.path| < |route|
    requires i < |n.children| && n.children[i].path != "" && n.children[i].path[0] == route[|n.path|]
    ensures Clashes(n, route) <==> Clashes(n.children[i], route[|n.path|..])
    ensures Routed(n, route) == Routed(n.children[i], route[|n.path|..])
  {
    var child, rest := n.children[i], route[|n.path|..];
    GoodHeads(n);
    HeadIsFound(n.children, i);
    PathThenRest(n.path, route);
    BelowRoutes(n, rest);
    hide Good, MayWalk, Routed, Clash;
    if Clashes(n, route) {
      var q, k: nat :| Routed(n, q).Some? && Clash(route, q, k);
      ClashGoesInto(n, route, q, k, i);
    }
    if Clashes(child, rest) {
      var q, k: nat :| Routed(child, q).Some? && Clash(rest, q, k);
      ClashComesOut(n, route, q, k, i);
    }
  }

  lemma SameNext(r: string, q: string, k: nat, m: nat)
    requires Clash(r, q, k) && m <= k
    ensures m < |r| && m < |q| && q[m] == r[m]
  {
    if m < k {
      assert r[..k][m] == q[..k][m];
    }
  }

  lemma ClashGoesInto(n: Node, route: string, q: string, k: nat, i: nat)
    requires Good(n) && MayWalk(n, route) && n.path <= route && |n.path| < |route|
    requires i < |n.children| && Heads(n.children) && n.children[i].path != "" && n.children[i].path[0] == route[|n.path|]
    requires Routed(n, q).Some? && Clash(route, q, k)
    ensures Clashes(n.children[i], route[|n.path|..])
  {
    hide *;
    NoneInside(n, route, q, k);
    RoutedBegins(n, q);
    SameNext(route, q, k, |n.path|);
    var rest, tail := route[|n.path|..], q[|n.path|..];
    HeadIsFound(n.children, i);
    PathThenRest(n.path, route);
    PathThenRest(n.path, q);
    ClashSuffix(n.path, rest, tail, k - |n.path|);
    InChild(n.children, i, tail);
    ClashIs(n.children[i], rest, tail, k - |n.path|);
  }

  lemma ClashIs(n: Node, route: string, q: string, k: nat)
    requires Routed(n, q).Some? && Clash(route, q, k)
    ensures Clashes(n, route)
  {
    hide Routed, Clash;
  }

  lemma ClashComesOut(n: Node, route: string, q: string, k: nat, i: nat)
    requires n.path <= route && |n.path| < |route| && Heads(n.children)
    requires i < |n.children| && Routed(n.children[i], q).Some? && Clash(route[|n.path|..], q, k)
    ensures Clashes(n, route)
  {
    var child := n.children[i];
    RoutedBegins(child, q);
    HeadIsFound(n.children, i);
    hide Routed;
    assert q != "" && q[0] == child.path[0];
    BelowRoutes(n, q);
    PathThenRest(n.path, route);
    ClashSuffix(n.path, route[|n.path|..], q, k);
  }

  // ----- the walk accepts

  ghost predicate Welcome(n: Node, route: string) {
    Routed(n, route) == None && !Clashes(n, route)
  }

  lemma AgreeTo(r: string, q: string, k: nat)
    requires k <= |r| && k <= |q| && r[..k] == q[..k]
    ensures forall j | 0 <= j < k :: r[j] == q[j]
  {
    forall j | 0 <= j < k
      ensures r[j] == q[j]
    {
      assert r[..k][j] == q[..k][j];
    }
  }

  /** Up to a place without a colon where the one leaves the other, two routes do not clash. */
  lemma LeavesEarly(p: string, r: string, q: string, i: nat, k: nat)
    requires p <= q && i < |p| && i <= |r| && r[..i] == p[..i] && (i < |r| ==> r[i] != p[i])
    requires forall j | 0 <= j < |p| :: p[j] != ':'
    ensures !Clash(r, q, k)
  {
    if k < |r| && k < |q| && r[..k] == q[..k] {
      AgreeTo(r, q, k);
      assert q[k] == p[k];
    }
  }

  /** A route that leaves the node's path early is new and clashes with none. */
  lemma SplitIsWelcome(n: Node, route: string)
    requires MayWalk(n, route) && LongestCommonPrefix(route, n.path) < |n.path|
    ensures Welcome(n, route)
  {
    var i := LongestCommonPrefix(route, n.path);
    PrefixFacts(n, route);
    StaticWalk(n, route);
    LeavesPath(n, route);
    RoutedHere(n, route);
    hide MayWalk, Good, Routed, Clash;
    forall j | 0 <= j < |n.path|
      ensures n.path[j] != ':'
    {
      NoColonInside(n, j);
    }
    forall q, k: nat | Routed(n, q).Some?
      ensures !Clash(route, q, k)
    {
      RoutedBegins(n, q);
      LeavesEarly(n.path, route, q, i, k);
    }
  }

  lemma PathClashesNone(n: Node)
    requires MayWalk(n, n.path)
    ensures !Clashes(n, n.path)
  {
    StaticWalk(n, n.path);
    hide Good, MayWalk, Routed, Clash;
    forall q, k: nat | Routed(n, q).Some?
      ensures !Clash(n.path, q, k)
    {
      if Clash(n.path, q, k) {
        NoneInside(n, n.path, q, k);
        ClashInside(n.path, q, k);
      }
    }
  }

  lemma ClashInside(r: string, q: string, k: nat)
    requires Clash(r, q, k)
    ensures k < |r| && k < |q| && r[k] == q[k] == ':'
  {
  }

  lemma NoneFor(n: Node, q: string)
    requires n.path <= q && |n.path| < |q| && ChildFor(n.children, q[|n.path|]) == |n.children|
    ensures Routed(n, q) == None
  {
    RoutedHere(n, q);
  }

  /** A route for which no child begins is new and clashes with none. */
  lemma NewChildIsWelcome(n: Node, route: string)
    requires Good(n) && MayWalk(n, route) && n.path <= route && |n.path| < |route|
    requires ChildFor(n.children, route[|n.path|]) == |n.children|
    ensures Welcome(n, route)
  {
    NoneFor(n, route);
    hide Good, MayWalk, Routed, Clash, ChildFor;
    forall q, k: nat | Clash(route, q, k)
      ensures Routed(n, q) == None
    {
      if Routed(n, q).Some? {
        NoneInside(n, route, q, k);
        RoutedBegins(n, q);
        SameNext(route, q, k, |n.path|);
        NoneFor(n, q);
      }
    }
  }

  /** No child begins where the walk grows one. */
  lemma NoneToGoInto(n: Node, c: char)
    requires Good(n)
    requires if n.kind == Param then n.children == [] else (c == ':' ==> !n.wildChild) && IndexOf(n.indices, c) == |n.indices|
    ensures ChildFor(n.children, c) == |n.children|
  {
    if n.kind == Param {
    } else if c == ':' {
      var k := ChildFor(n.children, c);
      ChildForHead(n.children, c);
      hide Good;
      if k < |n.children| {
        WildIsLast(n, k);
      }
    } else {
      NoneBegins(n, c);
    }
  }

  lemma GrowAccepts(n: Node, rest: string, full: string, h: Handler)
    requires Good(n) && rest != "" && ValidPattern(rest) && |n.indices| <= |n.children|
    requires if n.kind == Param then n.children == [] && rest[0] == '/'
             else (rest[0] == ':' ==> !n.wildChild) && IndexOf(n.indices, rest[0]) == |n.indices|
    ensures Grow(n, rest, full, h).1
  {
    hide *;
    if rest[0] == ':' {
      GrowWild(n, rest, full, h);
    } else {
      GrowStatic(n, rest, full, h);
    }
  }

  lemma SplitAccepts(n: Node, i: nat, up: string, path: string, full: string, h: Handler)
    requires Good(n) && n.priority > 0 && n.kind != Param && i < |n.path| && i <= |path|
    requires i < |path| ==> ValidPattern(path[i..]) && path[i] != n.path[i]
    requires |Split(n, i, up).indices| <= |Split(n, i, up).children|
    ensures (if i < |path| then Grow(Split(n, i, up), path[i..], full, h) else Place(Split(n, i, up), full, h)).1
  {
    var low := Split(n, i, up);
    SplitGood(n, i, up);
    SplitHasNoWild(n, i, up);
    if i < |path| {
      GrowAccepts(low, path[i..], full, h);
    }
  }

  /** A parameter of another name is in the way. */
  lemma StuckClashes(n: Node, route: string)
    requires Good(n) && Lean(n) && n.kind != Param && MayWalk(n, route) && n.path <= route && |n.path| < |route|
    requires n.wildChild && n.children != [] && route[|n.path|] == ':'
    requires !SameWildcard(n.children[|n.children| - 1].path, route[|n.path|..])
    ensures Clashes(n, route)
  {
    hide *;
    var last := |n.children| - 1;
    var m, rest := n.children[last], route[|n.path|..];
    WildIsParam(n);
    LeanBelow(n, last);
    GoodHeads(n);
    var q := LeadsToRoute(m);
    ParamSegment(m, q);
    OtherName(m, q, rest);
    ClashComesOut(n, route, q, 0, last);
  }

  lemma OtherName(m: Node, q: string, rest: string)
    requires m.path <= q && m.path != "" && m.path[0] == ':' && '/' !in m.path && SegmentAt(q, 0) == m.path
    requires rest != "" && rest[0] == ':' && !SameWildcard(m.path, rest)
    ensures Clash(rest, q, 0)
  {
    assert rest[0..] == rest;
    var e := SegmentEnd(rest);
    assert rest[..e] == m.path ==> SameWildcard(m.path, rest);
  }

  lemma WalkPlace(n: Node, full: string, h: Handler)
    ensures Place(n, full, h).1 <==> n.handler == None
  {
  }

  /** The walk accepts exactly the routes that are new and clash with none. */
  lemma {:induction false} WalkAccepts(n: Node, path: string, full: string, at: nat, h: Handler)
    requires MayWalk(n, path) && at + |path| <= |full| && Lean(n)
    ensures Walk(n, path, full, at, h).1 <==> Welcome(n, path)
    decreases Size(n)
  {
    hide *;
    StaticWalk(n, path);
    PrefixFacts(n, path);
    RestIsValid(n, path);
    var i := LongestCommonPrefix(path, n.path);
    if i < |n.path| {
      WalkForm(n, path, full, at, h);
      SplitAccepts(n, i, full[at + i..], path, full, h);
      SplitIsWelcome(n, path);
    } else if i == |path| {
      WalkPlaces(n, path, full, at, h);
      WalkPlace(n, full, h);
      PathClashesNone(n);
      RoutedHere(n, path);
      WelcomeIs(n, path);
    } else {
      IndicesAndChildren(n);
      WalkDescends(n, path, full, at, h);
      DescendAccepts(n, path, full, at, h);
    }
  }

  lemma WelcomeIs(n: Node, route: string)
    ensures Welcome(n, route) <==> Routed(n, route) == None && !Clashes(n, route)
  {
  }

  lemma RaisedClashes(n: Node, route: string)
    ensures Welcome(Raise(n), route) <==> Welcome(n, route)
  {
    RaiseRoutes(n);
    hide Routed, Clash;
    assert forall q :: Routed(Raise(n), q) == Routed(n, q);
  }

  /** The child the walk goes into begins like the rest of the route. */
  lemma StepHead(n: Node, rest: string)
    requires Good(n) && rest != "" && |n.indices| <= |n.children| && NextStep(n, rest).Into?
    requires n.kind == Param ==> rest[0] == '/' && n.indices in {"", "/"}
    ensures var pos := NextStep(n, rest).pos;
            pos < |n.children| && n.children[pos].path != "" && n.children[pos].path[0] == rest[0]
  {
    var s := NextStep(n, rest);
    if n.kind == Param {
      WildParts(n);
    } else if IndexOf(n.indices, rest[0]) < |n.indices| {
      hide IncrementChildPrio;
      IndexedHead(n, s.pos);
    } else {
      WildIsParam(n);
    }
  }

  lemma ParamIndices(n: Node, path: string)
    requires MayWalk(n, path) && LongestCommonPrefix(path, n.path) == |n.path| < |path|
    ensures n.kind == Param ==> path[|n.path|] == '/' && n.indices in {"", "/"}
  {
    OnlyOneWay(n, path);
  }

  lemma StuckIs(n: Node, rest: string)
    requires rest != "" && |n.indices| <= |n.children| && NextStep(n, rest).Stuck?
    ensures rest[0] == ':' && n.wildChild && n.children != [] && !SameWildcard(n.children[|n.children| - 1].path, rest)
  {
    hide IncrementChildPrio;
  }

  lemma {:induction false} DescendAccepts(n: Node, path: string, full: string, at: nat, h: Handler)
    requires MayWalk(n, path) && at + |path| <= |full| && Lean(n)
    requires LongestCommonPrefix(path, n.path) == |n.path| < |path| && |n.indices| <= |n.children|
    ensures Descend(n, path, full, at, h).1 <==> Welcome(n, path)
    decreases Size(n), 0
  {
    hide *;
    var rest := path[|n.path|..];
    StaticWalk(n, path);
    PathIsPrefix(n, path);
    StepRearranges(n, rest);
    StepIsTaken(n, path, full, at, h);
    OnlyOneWay(n, path);
    ParamIndices(n, path);
    WelcomeIs(n, path);
    var s := NextStep(n, rest);
    if s.Into? {
      StepHead(n, rest);
      RaisedIs(n, s.m, s.k, s.pos);
      LeanBelow(n, s.pos);
      RaiseLean(n.children[s.pos]);
      WalkAccepts(s.m.children[s.k], rest, full, at + s.passed, h);
      RaisedClashes(n.children[s.pos], rest);
      ChildClashes(n, path, s.pos);
      WelcomeIs(n.children[s.pos], rest);
    } else if s.Stuck? {
      StuckIs(n, rest);
      NotParam(n, path);
      StuckClashes(n, path);
    } else {
      RestIsValid(n, path);
      MayGrow(n, path);
      GrowAccepts(n, rest, full, h);
      NoneToGoInto(n, rest[0]);
      NewChildIsWelcome(n, path);
    }
  }

  lemma RaisedIs(n: Node, m: Node, k: nat, pos: nat)
    requires Rearranged(n, m, k, pos)
    ensures k < |m.children| && pos < |n.children| && m.children[k] == Raise(n.children[pos])
  {
  }

  lemma NotParam(n: Node, path: string)
    requires MayWalk(n, path) && LongestCommonPrefix(path, n.path) == |n.path| < |path| && path[|n.path|] == ':'
    ensures n.kind != Param
  {
    OnlyOneWay(n, path);
  }

  // ----- adding

  lemma NothingClashes(root: Node, route: string)
    requires root.path == "" && root.children == [] && root.handler == None
    ensures Welcome(root, route)
  {
    forall q
      ensures Routed(root, q) == None
    {
      RoutedHere(root, q);
    }
  }

  /** A route is accepted exactly if it is new and has no parameter where an accepted one has another. */
  lemma AddAccepts(root: Node, path: string, h: Handler)
    requires GoodRoot(root) && path != "" && ValidPattern(path) && (root == NEW_NODE || Lean(root))
    ensures Add(root, path, h).1 <==> Welcome(root, path)
  {
    var n := Raise(root).(kind := Root);
    RaisedRoot(root);
    RootLooksAlike(root, path);
    hide Good, ValidPattern, Walk, InsertChild, Lean, GoodRoot, Welcome;
    if n.path == "" && n.children == [] {
      NoHandlerAtStart(root);
      FirstAccepted(n, path, h);
      NothingClashes(root, path);
    } else {
      RootIsLean(root);
      WalkAccepts(n, path, path, 0, h);
    }
  }

  lemma NoHandlerAtStart(root: Node)
    requires GoodRoot(root)
    ensures root.path == "" ==> root.handler == None
  {
  }

  lemma RootIsLean(root: Node)
    requires Lean(root) && root.kind != Param
    ensures Lean(Raise(root).(kind := Root))
  {
  }

  lemma RootLooksAlike(root: Node, route: string)
    ensures Welcome(Raise(root).(kind := Root), route) <==> Welcome(root, route)
  {
    var n := Raise(root).(kind := Root);
    forall q
      ensures Routed(n, q) == Routed(root, q)
    {
      RoutedHere(n, q);
      RoutedHere(root, q);
    }
    hide Routed, Clash;
  }

  /** New, and without a parameter where an accepted route has another. */
  ghost predicate IsWelcome(calls: seq<Call>, path: string)
    requires ValidCalls(calls)
  {
    && FirstAcceptedCall(calls, path) == None
    && forall q, k: nat | FirstAcceptedCall(calls, q).Some? :: !Clash(path, q, k)
  }

  /**
   After any calls: the next one is accepted exactly if its route is not among the accepted
   ones, and none of those has a parameter of another name where it has one.
   */
  lemma AcceptedIff(calls: seq<Call>)
    requires ValidCalls(calls) && calls != []
    ensures var n := |calls| - 1;
            LastReturned(calls) <==> IsWelcome(calls[..n], calls[n].path)
  {
    var n := |calls| - 1;
    var before, path := calls[..n], calls[n].path;
    assert ValidCall(calls[n]);
    TreeIsLean(before);
    AddAccepts(TreeAfter(before), path, calls[n].handler);
    hide Add, TreeAfter, FirstAcceptedCall, Routed, Clash;
    forall q
      ensures Routed(TreeAfter(before), q) == FirstAcceptedCall(before, q)
    {
      TreeIsTable(before, q);
    }
  }
}
