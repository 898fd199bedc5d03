/**
 The walk of `add_route` down the tree, and runs of adding routes.
 */
module RouteWalk {
  import opened RouteTree
  import opened RouteTable
  import opened RouteAdd

  /** What adding a route below a node does to it. */
  ghost predicate Result(n: Node, path: string, h: Handler, m: Node, ok: bool) {
    Good(m) && Keeps(n, m) && Extends(n, m, path, h, ok)
  }

  /** A child gives way to what it has become. */
  lemma ChildReplacedGood(n: Node, k: nat, child: Node)
    requires Good(n) && k < |n.children| && Good(child) && Keeps(n.children[k], child)
    requires n.kind == Param ==> child.path != "" && child.path[0] == '/'
    ensures Good(n.(children := n.children[k := child]))
  {
    hide *;
    var m := n.(children := n.children[k := child]);
    UnfoldGood(n);
    UnfoldGood(m);
    ChildReplacedHere(n, k, child);
    assert forall i | 0 <= i < |m.children| :: Good(m.children[i]);
  }

  lemma ChildReplacedHere(n: Node, k: nat, child: Node)
    requires GoodHere(n) && k < |n.children| && Keeps(n.children[k], child)
    requires n.kind == Param ==> child.path != "" && child.path[0] == '/'
    ensures GoodHere(n.(children := n.children[k := child]))
  {
    var m := n.(children := n.children[k := child]);
    hide HasWild, ValidWildcard, Indexed;
    if n.kind != Param {
      var st, tt := Statics(n), Statics(m);
      assert tt == if k < |st| then st[k := child] else st;
      IndexedReplaced(st, n.indices, k, child);
    }
  }

  lemma IndexedReplaced(cs: seq<Node>, indices: string, k: nat, child: Node)
    requires Indexed(cs, indices)
    requires k < |cs| ==> Keeps(cs[k], child)
    ensures k < |cs| ==> Indexed(cs[k := child], indices)
  {
    hide HasWild;
  }

  lemma ExtendsSame(a: Node, b: Node, c: Node, path: string, h: Handler, ok: bool)
    requires SameTable(a, b)
    requires Extends(b, c, path, h, ok)
    ensures Extends(a, c, path, h, ok)
  {
  }

  lemma PrefixFacts(n: Node, path: string)
    requires MayWalk(n, path)
    ensures var i := LongestCommonPrefix(path, n.path);
            && path[..i] == n.path[..i] && path == n.path[..i] + path[i..]
            && (i < |n.path| ==> n.kind != Param && (n.kind == Static ==> i > 0))
  {
    StaticWalk(n, path);
    hide *;
    if n.kind == Param { ParamMatches(n, path); }
    if n.kind == Static { StaticPrefix(path, n.path); }
  }

  lemma StaticPrefix(a: string, b: string)
    requires a != "" && b != "" && a[0] == b[0]
    ensures LongestCommonPrefix(a, b) > 0
  {
  }

  lemma SplitKeeps(n: Node, i: nat, full: string)
    requires i < |n.path| && n.priority > 0 && n.kind != Param && (n.kind == Static ==> i > 0 && IsStatic(n))
    ensures Keeps(n, Split(n, i, full))
  {
  }

  /** A node that kept its path, kind and priority keeps what matters. */
  lemma SameKeeps(n: Node, m: Node, r: Node)
    requires Keeps(n, m) && r.path == m.path && r.kind == m.kind && r.priority == m.priority
    ensures Keeps(n, r)
  {
  }

  lemma KeepsItself(n: Node)
    requires n.kind == Static ==> IsStatic(n)
    ensures Keeps(n, n)
  {
  }

  lemma MakeResult(n: Node, path: string, h: Handler, m: Node, ok: bool)
    requires Good(m) && Keeps(n, m) && Extends(n, m, path, h, ok)
    ensures Result(n, path, h, m, ok)
  {
  }

  /**
   A node `low` with the same table as `n` grew into `m`, keeping its path, kind and
   priority.
   */
  ghost predicate Grew(n: Node, low: Node, m: Node, path: string, h: Handler, ok: bool) {
    && SameTable(n, low) && Keeps(n, low)
    && Good(m) && m.path == low.path && m.kind == low.kind && m.priority == low.priority
    && Extends(low, m, path, h, ok)
  }

  lemma GrewResult(n: Node, low: Node, m: Node, path: string, h: Handler, ok: bool)
    requires Grew(n, low, m, path, h, ok)
    ensures Result(n, path, h, m, ok)
  {
  }

  lemma WalkForm(n: Node, path: string, full: string, at: nat, h: Handler)
    requires MayWalk(n, path) && at + |path| <= |full| && LongestCommonPrefix(path, n.path) < |n.path|
    ensures var i := LongestCommonPrefix(path, n.path);
            var low := Split(n, i, full[at + i..]);
            |low.indices| <= |low.children| &&
            Walk(n, path, full, at, h) == if i < |path| then Grow(low, path[i..], full, h) else Place(low, full, h)
  {
  }

  /** What grows below a split edge. */
  lemma GrowBelowSplit(n: Node, i: nat, up: string, rest: string, full: string, h: Handler)
    requires Good(n) && n.kind != Param && i < |n.path| && n.priority > 0
    requires rest != "" && ValidPattern(rest) && rest[0] != n.path[i]
    ensures var low := Split(n, i, up);
            var (m, ok) := Grow(low, rest, full, h);
            Good(m) && m.path == low.path && m.kind == low.kind && m.priority == low.priority
            && Extends(low, m, low.path + rest, h, ok)
  {
    SplitGood(n, i, up);
    SplitHasNoWild(n, i, up);
    hide Good, Split, Extends, ValidPattern, Grow;
    if rest[0] == ':' {
      GrowWild(Split(n, i, up), rest, full, h);
    } else {
      GrowStatic(Split(n, i, up), rest, full, h);
    }
  }

  /** A child of a rearranged node was walked. */
  lemma ChildGrew(n: Node, m: Node, k: nat, child: Node, path: string, h: Handler, ok: bool)
    requires SameTable(n, m) && Good(m) && k < |m.children| && (n.kind == Static ==> IsStatic(n))
    requires m.path == n.path && m.kind == n.kind && m.priority == n.priority
    requires |n.path| < |path| && n.path <= path
    requires m.children[k].path != "" && path[|n.path|] == m.children[k].path[0]
    requires Result(m.children[k], path[|n.path|..], h, child, ok)
    ensures Result(n, path, h, m.(children := m.children[k := child]), ok)
  {
    hide Good, SameTable, Keeps, Extends, IsStatic, Result;
    ChildWalked(m, k, child, path[|n.path|..], h, ok);
    assert n.path + path[|n.path|..] == path;
    KeepsAlike(n, m);
    GrewResult(n, m, m.(children := m.children[k := child]), path, h, ok);
  }

  lemma PathIsPrefix(n: Node, path: string)
    requires LongestCommonPrefix(path, n.path) == |n.path|
    ensures n.path <= path
  {
  }

  lemma KeepsAlike(n: Node, m: Node)
    requires n.kind == Static ==> IsStatic(n)
    requires m.path == n.path && m.kind == n.kind && m.priority == n.priority
    ensures Keeps(n, m)
  {
  }

  /** The route leaves the node's path before its end. */
  lemma WalkSplits(n: Node, path: string, full: string, at: nat, h: Handler)
    requires MayWalk(n, path) && at + |path| <= |full| && LongestCommonPrefix(path, n.path) < |n.path|
    ensures var (m, ok) := Walk(n, path, full, at, h); Result(n, path, h, m, ok)
  {
    hide *;
    StaticWalk(n, path);
    PrefixFacts(n, path);
    RestIsValid(n, path);
    WalkForm(n, path, full, at, h);
    SplitGrew(n, LongestCommonPrefix(path, n.path), full[at + LongestCommonPrefix(path, n.path)..], path, full, h);
  }

  lemma SplitGrew(n: Node, i: nat, up: string, path: string, full: string, h: Handler)
    requires Good(n) && n.priority > 0 && n.kind != Param && (n.kind == Static ==> i > 0 && IsStatic(n))
    requires i < |n.path| && i <= |path| && path == n.path[..i] + path[i..]
    requires i < |path| ==> ValidPattern(path[i..]) && path[i] != n.path[i]
    requires |Split(n, i, up).indices| <= |Split(n, i, up).children|
    ensures var (m, ok) := if i < |path| then Grow(Split(n, i, up), path[i..], full, h) else Place(Split(n, i, up), full, h);
            Result(n, path, h, m, ok)
  {
    hide *;
    var low := Split(n, i, up);
    SplitGood(n, i, up);
    SplitRoutes(n, i, up);
    SplitKeeps(n, i, up);
    SplitPath(n, i, up);
    if i < |path| {
      GrowBelowSplit(n, i, up, path[i..], full, h);
      var (m, ok) := Grow(low, path[i..], full, h);
      GrewResult(n, low, m, path, h, ok);
    } else {
      PlaceGood(low, full, h);
      PlaceRoutes(low, full, h);
      PlaceKeeps(low, full, h);
      var (m, ok) := Place(low, full, h);
      assert path == low.path;
      GrewResult(n, low, m, path, h, ok);
    }
  }

  lemma PlaceKeeps(n: Node, full: string, h: Handler)
    ensures var m := Place(n, full, h).0; m.path == n.path && m.kind == n.kind && m.priority == n.priority
  {
  }

  lemma SplitHasNoWild(n: Node, i: nat, full: string)
    requires i < |n.path| && n.priority > 0
    ensures !Split(n, i, full).wildChild && |Split(n, i, full).children| == 1
  {
  }

  lemma SplitPath(n: Node, i: nat, full: string)
    requires i < |n.path| && n.priority > 0
    ensures Split(n, i, full).path == n.path[..i]
  {
  }

  /** The route ends with the node's path. */
  lemma WalkEnds(n: Node, path: string, full: string, at: nat, h: Handler)
    requires MayWalk(n, path) && at + |path| <= |full| && LongestCommonPrefix(path, n.path) == |n.path| == |path|
    ensures var (m, ok) := Walk(n, path, full, at, h); Result(n, path, h, m, ok)
  {
    var (m, ok) := Walk(n, path, full, at, h);
    PrefixFacts(n, path);
    assert n.path == path;
    PlaceGood(n, full, h);
    PlaceRoutes(n, full, h);
    KeepsItself(n);
    SameKeeps(n, n, m);
  }

  /** A child of the node became something that extends it. */
  lemma ChildWalked(n: Node, k: nat, child: Node, rest: string, h: Handler, ok: bool)
    requires Good(n) && k < |n.children| && rest != "" && n.children[k].path != "" && rest[0] == n.children[k].path[0]
    requires Result(n.children[k], rest, h, child, ok)
    ensures var m := n.(children := n.children[k := child]);
            Good(m) && Extends(n, m, n.path + rest, h, ok)
  {
    GoodHeads(n);
    KeptHead(n, k, child);
    ChildReplacedGood(n, k, child);
    hide Good, Heads, Extends, Keeps;
    OneChildExtends(n.children, k, child, rest, h, ok);
    ChildrenExtend(n, n.(children := n.children[k := child]), rest, h, ok);
  }

  lemma KeptHead(n: Node, k: nat, child: Node)
    requires Good(n) && k < |n.children| && Keeps(n.children[k], child)
    ensures n.children[k].path != "" && child.path != "" && child.path[0] == n.children[k].path[0]
    ensures n.kind == Param ==> child.path[0] == '/'
  {
    GoodHeads(n);
    hide Sorted, Distinct, HasWild;
    if n.kind != Param {
      if k < |n.indices| {
        assert Statics(n)[k] == n.children[k];
      }
    }
  }

  /** Down into the only child of a parameter. */
  lemma WalkedParam(n: Node, path: string, child: Node, h: Handler, ok: bool)
    requires MayWalk(n, path) && n.kind == Param && |n.path| < |path| && |n.children| == 1
    requires Result(Raise(n.children[0]), path[|n.path|..], h, child, ok)
    ensures Result(n, path, h, n.(children := [child]), ok)
  {
    var raised := n.(children := [Raise(n.children[0])]);
    StaticWalk(n, path);
    ParamMatches(n, path);
    PathIsPrefix(n, path);
    hide *;
    RaisedParam(n);
    ReplaceOnly(n, Raise(n.children[0]), child);
    ChildGrew(n, raised, 0, child, path, h, ok);
  }

  lemma ReplaceOnly(n: Node, a: Node, b: Node)
    ensures n.(children := [a]).(children := n.(children := [a]).children[0 := b]) == n.(children := [b])
  {
  }

  lemma ReplaceAgain(n: Node, k: nat, a: Node, b: Node)
    requires k < |n.children|
    ensures var m := n.(children := n.children[k := a]);
            m.(children := m.children[k := b]) == n.(children := n.children[k := b])
  {
  }

  lemma RaisedParam(n: Node)
    requires Good(n) && n.kind == Param && |n.children| == 1
    ensures var raised := n.(children := [Raise(n.children[0])]);
            Good(raised) && SameTable(n, raised) && raised.children[0].path != "" && raised.children[0].path[0] == '/'
  {
    var raised := n.(children := [Raise(n.children[0])]);
    RaiseKeepsGood(n.children[0]);
    assert Good(raised);
    GoodHeads(n);
    RaisedIn(n.children, 0);
    assert n.children[0 := Raise(n.children[0])] == raised.children;
    SameRoutes(n, raised);
  }

  /** Children with the same routes make nodes with the same routes. */
  lemma SameRoutes(n: Node, m: Node)
    requires m.path == n.path && m.handler == n.handler
    requires SameTableIn(n.children, m.children)
    ensures SameTable(n, m)
  {
    forall q
      ensures Routed(m, q) == Routed(n, q)
    {
      RoutedHere(n, q);
      RoutedHere(m, q);
    }
  }

  /** Down into the child the index names, which has moved forward. */
  lemma WalkedIndexed(n: Node, path: string, child: Node, h: Handler, ok: bool)
    requires MayWalk(n, path) && n.kind != Param && LongestCommonPrefix(path, n.path) == |n.path| < |path|
    requires IndexOf(n.indices, path[|n.path|]) < |n.indices| <= |n.children|
    requires var (m, k) := IncrementChildPrio(n, IndexOf(n.indices, path[|n.path|]));
             k < |m.children| && Result(m.children[k], path[|n.path|..], h, child, ok)
    ensures var (m, k) := IncrementChildPrio(n, IndexOf(n.indices, path[|n.path|]));
            Result(n, path, h, m.(children := m.children[k := child]), ok)
  {
    var pos := IndexOf(n.indices, path[|n.path|]);
    var (m, k) := IncrementChildPrio(n, pos);
    StaticWalk(n, path);
    PathIsPrefix(n, path);
    hide *;
    RaisedChild(n, pos);
    RaiseKeepsPath(n.children[pos]);
    IncrementGood(n, pos);
    IncrementRoutes(n, pos);
    IndexedHead(n, pos);
    SameRoutes(n, m);
    ChildGrew(n, m, k, child, path, h, ok);
  }

  lemma RaiseKeepsPath(n: Node)
    ensures Raise(n).path == n.path
  {
  }

  lemma StaticWalk(n: Node, path: string)
    requires MayWalk(n, path)
    ensures n.priority > 0
    ensures Good(n) && (n.kind == Static ==> IsStatic(n) && n.path != "" && path != "" && path[0] == n.path[0])
  {
  }

  lemma IndexedHead(n: Node, pos: nat)
    requires Good(n) && n.kind != Param && pos < |n.indices|
    ensures pos < |n.children| && n.children[pos].path != "" && n.children[pos].path[0] == n.indices[pos]
  {
    assert Statics(n)[pos] == n.children[pos];
  }

  /** Down into the wildcard child. */
  lemma WalkedWild(n: Node, path: string, child: Node, h: Handler, ok: bool)
    requires MayWalk(n, path) && n.kind != Param && LongestCommonPrefix(path, n.path) == |n.path| < |path|
    requires n.wildChild && n.children != [] && path[|n.path|] == ':'
    requires Result(Raise(n.children[|n.children| - 1]), path[|n.path|..], h, child, ok)
    ensures Result(n, path, h, n.(children := n.children[|n.children| - 1 := child]), ok)
  {
    var last := |n.children| - 1;
    var raised := n.(children := n.children[last := Raise(n.children[last])]);
    StaticWalk(n, path);
    PathIsPrefix(n, path);
    hide *;
    RaisedWild(n);
    ReplaceAgain(n, last, Raise(n.children[last]), child);
    ChildGrew(n, raised, last, child, path, h, ok);
  }

  lemma RaisedWild(n: Node)
    requires Good(n) && n.kind != Param && n.wildChild
    ensures n.children != []
    ensures var last := |n.children| - 1;
            var raised := n.(children := n.children[last := Raise(n.children[last])]);
            Good(raised) && SameTable(n, raised) && raised.children[last].path != "" && raised.children[last].path[0] == ':'
  {
    var last := |n.children| - 1;
    var raised := n.(children := n.children[last := Raise(n.children[last])]);
    RaiseKeepsGood(n.children[last]);
    WildHead(n.children[last]);
    RaisedLastGood(n);
    GoodHeads(n);
    hide Good, Heads, SameTableIn, SameTable;
    RaisedIn(n.children, last);
    SameRoutes(n, raised);
  }

  lemma RaisedLastGood(n: Node)
    requires Good(n) && n.kind != Param && n.wildChild
    ensures n.children != []
    ensures var last := |n.children| - 1; Good(n.(children := n.children[last := Raise(n.children[last])]))
  {
    var last := |n.children| - 1;
    var raised := n.(children := n.children[last := Raise(n.children[last])]);
    assert Statics(raised) == Statics(n);
    RaiseKeepsGood(n.children[last]);
    hide Indexed, HasWild;
  }

  /** The walk extends the table by the route and keeps the shape. */
  lemma {:induction false} WalkExtends(n: Node, path: string, full: string, at: nat, h: Handler)
    requires MayWalk(n, path) && at + |path| <= |full|
    ensures var (m, ok) := Walk(n, path, full, at, h); Result(n, path, h, m, ok)
    decreases Size(n)
  {
    var i := LongestCommonPrefix(path, n.path);
    if i < |n.path| {
      WalkSplits(n, path, full, at, h);
    } else if i == |path| {
      WalkEnds(n, path, full, at, h);
    } else {
      StaticWalk(n, path);
      IndicesAndChildren(n);
      DescendExtends(n, path, full, at, h);
    }
  }

  lemma {:induction false} DescendExtends(n: Node, path: string, full: string, at: nat, h: Handler)
    requires MayWalk(n, path) && at + |path| <= |full|
    requires LongestCommonPrefix(path, n.path) == |n.path| < |path|
    requires |n.indices| <= |n.children|
    ensures var (m, ok) := Descend(n, path, full, at, h); Result(n, path, h, m, ok)
    decreases Size(n), 0
  {
    hide Good, MayWalk, IncrementChildPrio, Extends, Keeps, Walk, Grow, ValidPattern, Size, Result;
    var rest := path[|n.path|..];
    OnlyOneWay(n, path);
    StaticWalk(n, path);
    if n.kind == Param && |n.children| == 1 {
      RaisedSize(n, 0);
      MayWalkParam(n, path);
      WalkExtends(Raise(n.children[0]), rest, full, at + |n.path|, h);
      WalkedParam(n, path, Walk(Raise(n.children[0]), rest, full, at + |n.path|, h).0, h,
                  Walk(Raise(n.children[0]), rest, full, at + |n.path|, h).1);
    } else if IndexOf(n.indices, rest[0]) < |n.indices| {
      var pos := IndexOf(n.indices, rest[0]);
      var (m, k) := IncrementChildPrio(n, pos);
      RaisedChild(n, pos);
      RaisedSize(n, pos);
      MayWalkIndexed(n, path);
      WalkExtends(m.children[k], rest, full, at + |n.path|, h);
      var (child, ok) := Walk(m.children[k], rest, full, at + |n.path|, h);
      WalkedIndexed(n, path, child, h, ok);
    } else if rest[0] == ':' && n.wildChild {
      DescendWild(n, path, full, at, h);
    } else {
      DescendGrows(n, path, full, at, h);
    }
  }

  lemma {:induction false} DescendWild(n: Node, path: string, full: string, at: nat, h: Handler)
    requires MayWalk(n, path) && at + |path| <= |full| && n.kind != Param
    requires LongestCommonPrefix(path, n.path) == |n.path| < |path| && |n.indices| <= |n.children|
    requires path[|n.path|] == ':' && n.wildChild && IndexOf(n.indices, ':') == |n.indices|
    ensures var (m, ok) := Descend(n, path, full, at, h); Result(n, path, h, m, ok)
    decreases Size(n), -1
  {
    hide Good, MayWalk, IncrementChildPrio, Extends, Keeps, Walk, Grow, ValidPattern, Size, Result, IndexOf;
    MayWalkWild(n, path);
    var rest, last := path[|n.path|..], |n.children| - 1;
    RaisedSize(n, last);
    var wild := Raise(n.children[last]);
    StaticWalk(n, path);
    if SameWildcard(wild.path, rest) {
      WalkExtends(wild, rest, full, at, h);
      var (child, ok) := Walk(wild, rest, full, at, h);
      WalkedWild(n, path, child, h, ok);
    } else {
      RaisedWild(n);
      Conflict(n, path, h);
    }
  }

  /** A wildcard of another name: only a priority grows. */
  lemma Conflict(n: Node, path: string, h: Handler)
    requires Good(n) && n.wildChild && n.children != [] && n.kind != Param && (n.kind == Static ==> IsStatic(n))
    ensures Result(n, path, h, n.(children := n.children[|n.children| - 1 := Raise(n.children[|n.children| - 1])]), false)
  {
    RaisedWild(n);
    KeepsItself(n);
    hide Good, Routed;
  }

  /** No child continues the route. */
  lemma DescendGrows(n: Node, path: string, full: string, at: nat, h: Handler)
    requires MayWalk(n, path) && at + |path| <= |full|
    requires LongestCommonPrefix(path, n.path) == |n.path| < |path| && |n.indices| <= |n.children|
    requires n.kind == Param ==> |n.children| != 1 && path[|n.path|] == '/'
    requires IndexOf(n.indices, path[|n.path|]) == |n.indices| && !(path[|n.path|] == ':' && n.wildChild)
    ensures var (m, ok) := Descend(n, path, full, at, h); Result(n, path, h, m, ok)
  {
    hide Good, MayWalk, IncrementChildPrio, Extends, Keeps, Walk, Grow, ValidPattern, Result, IndexOf;
    StaticWalk(n, path);
    RestIsValid(n, path);
    PrefixFacts(n, path);
    var rest := path[|n.path|..];
    if rest[0] == ':' {
      GrowWild(n, rest, full, h);
    } else {
      ChildlessParam(n);
      GrowStatic(n, rest, full, h);
    }
    var (m, ok) := Grow(n, rest, full, h);
    KeepsItself(n);
    SameKeeps(n, n, m);
    assert n.path + rest == path;
    MakeResult(n, path, h, m, ok);
  }

  lemma ChildlessParam(n: Node)
    requires Good(n)
    ensures n.kind == Param && |n.children| != 1 ==> n.children == []
  {
  }

  // ----- the whole tree

  /** Adding a route extends the table by it, if it is accepted; the tree stays in shape. */
  lemma AddExtends(root: Node, path: string, h: Handler)
    requires GoodRoot(root) && path != "" && ValidPattern(path)
    ensures var (m, ok) := Add(root, path, h);
            GoodRoot(m) && m.kind == Root && Extends(root, m, path, h, ok)
  {
    var n := Raise(root).(kind := Root);
    RaisedRoot(root);
    hide Good, ValidPattern, Extends, Keeps, Walk, InsertChild, SameTable, OnlyRoute;
    if n.path == "" && n.children == [] {
      FirstRoute(n, path, h);
    } else {
      WalkExtends(n, path, path, 0, h);
    }
    var (m, ok) := Add(root, path, h);
    ExtendsSame(root, n, m, path, h, ok);
    NoEmptyRoute(root, m, path, h, ok);
  }

  lemma NoEmptyRoute(root: Node, m: Node, path: string, h: Handler, ok: bool)
    requires GoodRoot(root) && path != "" && Extends(root, m, path, h, ok)
    ensures m.path == "" ==> m.handler == None
  {
    RoutedHere(root, "");
    RoutedHere(m, "");
  }

  lemma RaisedRoot(root: Node)
    requires GoodRoot(root)
    ensures var n := Raise(root).(kind := Root);
            Good(n) && SameTable(root, n) && (n.path == "" ==> n.handler == None)
  {
    var n := Raise(root).(kind := Root);
    assert Statics(n) == Statics(root);
    forall q
      ensures Routed(n, q) == Routed(root, q)
    {
      RoutedHere(n, q);
      RoutedHere(root, q);
    }
  }

  /** The root of an empty tree takes the route itself. */
  lemma FirstRoute(n: Node, path: string, h: Handler)
    requires Good(n) && n.kind == Root && n.path == "" && n.children == [] && n.handler == None
    requires path != "" && ValidPattern(path)
    ensures var (m, ok) := InsertChild(n, path, path, h);
            Good(m) && m.kind == Root && Extends(n, m, path, h, ok)
  {
    assert Statics(n) == [];
    hide InsertChild, ValidPattern;
    InsertFresh(n, path, path, h);
    forall q
      ensures Routed(n, q) == None
    {
      RoutedHere(n, q);
    }
  }
}
