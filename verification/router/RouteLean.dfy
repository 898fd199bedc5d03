/**
 No node of a tree is idle: it ends a route, or routes part behind it. So every child leads
 to a route.
 */
module RouteLean {
  import opened RouteTree
  import opened RouteTable
  import opened RouteAdd
  import opened RouteWalk
  import opened RouteRuns
  import opened RouteNames

  /** The node ends a route, is a parameter routes go on behind, or routes part behind it. */
  predicate Needed(n: Node) {
    n.handler.Some? || (n.children != [] && (n.kind == Param || n.wildChild || |n.children| >= 2))
  }

  /** Every node, here and below, is needed. */
  predicate Lean(n: Node) {
    && Needed(n)
    && forall i | 0 <= i < |n.children| :: Lean(n.children[i])
  }

  predicate AllLean(cs: seq<Node>) {
    forall c | c in cs :: Lean(c)
  }

  lemma LeanHere(n: Node)
    ensures Lean(n) <==> Needed(n) && AllLean(n.children)
  {
    assert forall i | 0 <= i < |n.children| :: n.children[i] in n.children;
  }

  lemma RaiseLean(n: Node)
    ensures Lean(Raise(n)) <==> Lean(n)
  {
    LeanHere(n);
    LeanHere(Raise(n));
  }

  lemma SplitLean(n: Node, i: nat, up: string)
    requires Lean(n) && i < |n.path| && n.priority > 0 && n.kind != Param
    ensures Split(n, i, up).children != [] && AllLean(Split(n, i, up).children)
  {
    var low := Split(n, i, up).children[0];
    LeanHere(n);
    LeanHere(low);
  }

  lemma {:induction false} InsertLean(n: Node, path: string, full: string, h: Handler)
    requires n.children == [] && !n.wildChild && n.path == "" && n.handler == None && ValidPattern(path)
    ensures Lean(InsertChild(n, path, full, h).0)
    decreases |path|, 1
  {
    hide *;
    var i := FirstWild(path);
    if i == |path| {
      InsertedPath(n, path, full, h);
      NoneLean();
      RouteIsNeeded(InsertChild(n, path, full, h).0);
    } else {
      InsertHangsParam(n, path, full, h);
      PatternTail(path, i);
      ParamLean(path[i..], full, h);
      var head := if i > 0 then n.(path := path[..i]) else n;
      AddedOnly(head, NewParam(path[i..], full, h).0);
      OneLean(NewParam(path[i..], full, h).0);
      WildIsNeeded(InsertChild(n, path, full, h).0);
    }
    LeanHere(InsertChild(n, path, full, h).0);
  }

  lemma RouteIsNeeded(n: Node)
    requires n.handler.Some?
    ensures Needed(n)
  {
  }

  lemma WildIsNeeded(n: Node)
    requires n.wildChild && n.children != []
    ensures Needed(n)
  {
  }

  lemma NoneLean()
    ensures AllLean([])
  {
  }

  lemma OneLean(n: Node)
    requires Lean(n)
    ensures AllLean([n])
  {
  }

  lemma {:induction false} ParamLean(path: string, full: string, h: Handler)
    requires path != "" && IsWild(path[0]) && ValidPattern(path)
    ensures Lean(NewParam(path, full, h).0)
    decreases |path|, 0
  {
    hide ValidPattern, WildcardName, InsertChild, Lean, AllLean, AddChild;
    var name := WildcardName(path);
    PatternAfterName(path, name);
    var param := NEW_NODE.(path := name, kind := Param, priority := 1, fullPath := full);
    var rest := path[|name|..];
    var m := NewParam(path, full, h).0;
    LeanHere(m);
    if rest == "" {
      NoneLean();
    } else {
      var sub := NEW_NODE.(priority := 1, fullPath := full);
      InsertLean(sub, rest, full, h);
      AddedOnly(param, InsertChild(sub, rest, full, h).0);
      OneLean(InsertChild(sub, rest, full, h).0);
    }
  }

  lemma LeanWith(cs: seq<Node>, ds: seq<Node>, child: Node)
    requires AllLean(cs) && Lean(child)
    requires forall c | c in ds :: c == child || c in cs
    ensures AllLean(ds)
  {
  }

  /** One child more makes the node needed. */
  predicate MayGrowLean(n: Node) {
    n.kind == Param || n.handler.Some? || n.children != []
  }

  lemma GrowLean(n: Node, rest: string, full: string, h: Handler)
    requires Good(n) && AllLean(n.children) && rest != "" && ValidPattern(rest) && MayGrowLean(n)
    requires if n.kind == Param then n.children == [] && rest[0] == '/'
             else (rest[0] == ':' ==> !n.wildChild) && IndexOf(n.indices, rest[0]) == |n.indices|
    requires |n.indices| <= |n.children|
    ensures Lean(Grow(n, rest, full, h).0)
  {
    hide *;
    if rest[0] == ':' {
      GrowWildLean(n, rest, full, h);
    } else {
      GrowStaticLean(n, rest, full, h);
    }
  }

  lemma GrowWildLean(n: Node, rest: string, full: string, h: Handler)
    requires AllLean(n.children) && !n.wildChild && rest != "" && rest[0] == ':' && ValidPattern(rest)
    requires |n.indices| <= |n.children|
    ensures Lean(Grow(n, rest, full, h).0)
  {
    hide Lean, ValidPattern, NewParam, FirstWild, InsertChild, AllLean;
    FrontIsWild(rest);
    InsertHangsParam(n, rest, full, h);
    assert rest[0..] == rest;
    var param := NewParam(rest, full, h).0;
    ParamLean(rest, full, h);
    var m := Grow(n, rest, full, h).0;
    assert m.children == n.children + [param];
    LeanWith(n.children, m.children, param);
    LeanHere(m);
  }

  lemma GrowStaticLean(n: Node, rest: string, full: string, h: Handler)
    requires Good(n) && AllLean(n.children) && rest != "" && rest[0] != ':' && ValidPattern(rest) && MayGrowLean(n)
    requires |n.indices| <= |n.children| && (n.kind == Param ==> n.children == [])
    ensures Lean(Grow(n, rest, full, h).0)
  {
    hide *;
    var newNode := NEW_NODE.(fullPath := full, priority := 1);
    WildIsColon(rest);
    NewNodeIsEmpty(full);
    EmptyIs(newNode);
    InsertFresh(newNode, rest, full, h);
    InsertLean(newNode, rest, full, h);
    StaticsCounted(n);
    GrowForm(n, rest, full, h);
    var child := InsertChild(newNode, rest, full, h).0;
    var k := NewPlace(Statics(n));
    GrownChildren(n, child, k);
    LeanWith(n.children, Grown(n, child, k).children, child);
    GrownIsNeeded(n, child, k);
    LeanHere(Grown(n, child, k));
  }

  lemma EmptyIs(n: Node)
    requires Empty(n)
    ensures n.children == [] && !n.wildChild && n.path == "" && n.handler == None
  {
  }

  lemma GrownIsNeeded(n: Node, child: Node, k: nat)
    requires (n.wildChild ==> n.children != []) && k <= |Statics(n)| && k <= |n.indices| && child.path != ""
    requires MayGrowLean(n)
    ensures Needed(Grown(n, child, k))
  {
  }

  lemma PlaceLean(n: Node, full: string, h: Handler)
    requires AllLean(n.children)
    ensures Lean(Place(n, full, h).0)
  {
    LeanHere(Place(n, full, h).0);
  }

  lemma {:induction false} WalkLean(n: Node, path: string, full: string, at: nat, h: Handler)
    requires MayWalk(n, path) && at + |path| <= |full| && Lean(n)
    ensures Lean(Walk(n, path, full, at, h).0)
    decreases Size(n)
  {
    hide *;
    StaticWalk(n, path);
    PrefixFacts(n, path);
    RestIsValid(n, path);
    var i := LongestCommonPrefix(path, n.path);
    if i < |n.path| {
      WalkForm(n, path, full, at, h);
      SplitGrowsLean(n, i, full[at + i..], path, full, h);
    } else if i == |path| {
      WalkPlaces(n, path, full, at, h);
      LeanHere(n);
      PlaceLean(n, full, h);
    } else {
      IndicesAndChildren(n);
      WalkDescends(n, path, full, at, h);
      DescendLean(n, path, full, at, h);
    }
  }

  lemma SplitGrowsLean(n: Node, i: nat, up: string, path: string, full: string, h: Handler)
    requires Good(n) && n.priority > 0 && n.kind != Param && i < |n.path| && i <= |path| && Lean(n)
    requires i < |path| ==> ValidPattern(path[i..]) && path[i] != n.path[i]
    requires |Split(n, i, up).indices| <= |Split(n, i, up).children|
    ensures Lean((if i < |path| then Grow(Split(n, i, up), path[i..], full, h) else Place(Split(n, i, up), full, h)).0)
  {
    hide *;
    var low := Split(n, i, up);
    SplitGood(n, i, up);
    SplitLean(n, i, up);
    SplitHasNoWild(n, i, up);
    if i < |path| {
      ParentMayGrow(low);
      GrowLean(low, path[i..], full, h);
    } else {
      PlaceLean(low, full, h);
    }
  }

  lemma {:induction false} DescendLean(n: Node, path: string, full: string, at: nat, h: Handler)
    requires MayWalk(n, path) && at + |path| <= |full| && Lean(n)
    requires LongestCommonPrefix(path, n.path) == |n.path| < |path| && |n.indices| <= |n.children|
    ensures Lean(Descend(n, path, full, at, h).0)
    decreases Size(n), 0
  {
    hide *;
    var rest := path[|n.path|..];
    StepRearranges(n, rest);
    StepIsTaken(n, path, full, at, h);
    LeanHere(n);
    var s := NextStep(n, rest);
    if s.Into? {
      ChildLean(n, s.pos, s.m, s.k);
      WalkLean(s.m.children[s.k], rest, full, at + s.passed, h);
      RearrangedLean(n, s.m, s.k, s.pos, Walk(s.m.children[s.k], rest, full, at + s.passed, h).0);
    } else if s.Stuck? {
      StuckLean(n, s.m);
    } else {
      StaticWalk(n, path);
      RestIsValid(n, path);
      MayGrow(n, path);
      NeededMayGrow(n);
      GrowLean(n, rest, full, h);
    }
  }

  lemma ParentMayGrow(n: Node)
    requires n.children != []
    ensures MayGrowLean(n)
  {
  }

  lemma NeededMayGrow(n: Node)
    requires Needed(n)
    ensures MayGrowLean(n)
  {
  }

  lemma ChildLean(n: Node, pos: nat, m: Node, k: nat)
    requires Lean(n) && Rearranged(n, m, k, pos)
    ensures Lean(m.children[k])
  {
    RaiseLean(n.children[pos]);
  }

  lemma RearrangedLean(n: Node, m: Node, k: nat, pos: nat, child: Node)
    requires Lean(n) && Rearranged(n, m, k, pos) && Lean(child)
    ensures Lean(m.(children := m.children[k := child]))
  {
    var r := m.(children := m.children[k := child]);
    hide Lean;
    LeanHere(n);
    LeanHere(r);
    assert n.children[pos] in n.children;
    RaiseLean(n.children[pos]);
    forall c | c in r.children
      ensures Lean(c)
    {
      assert c == child || c in m.children;
    }
  }

  lemma StuckLean(n: Node, m: Node)
    requires Lean(n) && n.children != [] && Rearranged(n, m, |n.children| - 1, |n.children| - 1)
    ensures Lean(m)
  {
    var last := |n.children| - 1;
    RaiseLean(n.children[last]);
    RearrangedLean(n, m, last, last, m.children[last]);
    assert m.children[last := m.children[last]] == m.children;
  }

  lemma AddLean(root: Node, path: string, h: Handler)
    requires GoodRoot(root) && path != "" && ValidPattern(path) && (root == NEW_NODE || Lean(root))
    ensures Lean(Add(root, path, h).0)
  {
    var n := Raise(root).(kind := Root);
    RaisedRoot(root);
    hide Good, ValidPattern, Walk, InsertChild, Lean, AllLean, SameTable, GoodRoot;
    if n.path == "" && n.children == [] {
      NotWild(n);
      NoHandler(root);
      InsertLean(n, path, path, h);
    } else {
      LeanHere(root);
      LeanHere(n);
      WalkLean(n, path, path, 0, h);
    }
  }

  lemma NoHandler(root: Node)
    requires GoodRoot(root)
    ensures root.path == "" ==> root.handler == None
  {
  }

  lemma {:induction false} TreeIsLean(calls: seq<Call>)
    requires ValidCalls(calls)
    ensures TreeAfter(calls) == NEW_NODE || Lean(TreeAfter(calls))
    decreases |calls|
  {
    hide Add, GoodRoot, ValidPattern, Lean;
    if calls != [] {
      var n := |calls| - 1;
      assert ValidCall(calls[n]);
      TreeIsLean(calls[..n]);
      AddLean(TreeAfter(calls[..n]), calls[n].path, calls[n].handler);
    }
  }

  /** Below every child there is a route. */
  lemma {:induction false} LeadsToRoute(n: Node) returns (route: string)
    requires Good(n) && Lean(n)
    ensures n.path <= route && Routed(n, route).Some?
    decreases n
  {
    hide Good;
    if n.handler.Some? {
      route := n.path;
      RoutedHere(n, route);
    } else {
      GoodHeads(n);
      UnfoldGood(n);
      var tail := LeadsToRoute(n.children[0]);
      route := n.path + tail;
      HeadIsFound(n.children, 0);
      assert route[|n.path|..] == tail;
      assert tail[0] == n.children[0].path[0];
      RoutedHere(n, route);
    }
  }
}
