/**
 Any run of adding routes: the tree stands for the table of the routes accepted, and a
 route without wildcards is accepted exactly when it is new.
 */
module RouteRuns {
  import opened RouteTree
  import opened RouteTable
  import opened RouteAdd
  import opened RouteWalk

  /** A route with wildcards cannot be where one without stands. */
  lemma StaticWalksStatic(n: Node, path: string)
    requires MayWalk(n, path) && !HasWild(path)
    ensures n.kind != Param
  {
    if n.kind == Param {
      assert IsWild(path[0]);
    }
  }

  lemma RestHasNoWild(path: string, i: nat)
    requires !HasWild(path) && i <= |path|
    ensures !HasWild(path[i..])
    ensures forall j | 0 <= j < |path| :: path[j] != ':'
  {
  }

  /** The walk refuses a route without wildcards only where it is already there. */
  lemma {:induction false} RefusedIsThere(n: Node, path: string, full: string, at: nat, h: Handler)
    requires MayWalk(n, path) && at + |path| <= |full| && !HasWild(path)
    ensures !Walk(n, path, full, at, h).1 ==> Routed(n, path) != None
    decreases Size(n)
  {
    hide *;
    StaticWalk(n, path);
    StaticWalksStatic(n, path);
    PrefixFacts(n, path);
    RestIsValid(n, path);
    var i := LongestCommonPrefix(path, n.path);
    RestHasNoWild(path, i);
    if i < |n.path| {
      WalkForm(n, path, full, at, h);
      SplitAccepts(n, i, full[at + i..], path, full, h);
    } else if i == |path| {
      EndRefuses(n, path, full, at, h);
    } else {
      IndicesAndChildren(n);
      DescendRefuses(n, path, full, at, h);
    }
  }

  lemma SplitAccepts(n: Node, i: nat, up: string, path: string, full: string, h: Handler)
    requires Good(n) && n.priority > 0 && n.kind != Param && i < |n.path| && i <= |path|
    requires i < |path| ==> ValidPattern(path[i..]) && path[i] != n.path[i] && path[i] != ':'
    requires |Split(n, i, up).indices| <= |Split(n, i, up).children|
    ensures if i < |path| then Grow(Split(n, i, up), path[i..], full, h).1 else Place(Split(n, i, up), full, h).1
  {
    SplitGood(n, i, up);
    hide Good, ValidPattern, Grow;
    if i < |path| {
      GrowStatic(Split(n, i, up), path[i..], full, h);
    }
  }

  lemma EndRefuses(n: Node, path: string, full: string, at: nat, h: Handler)
    requires MayWalk(n, path) && at + |path| <= |full| && LongestCommonPrefix(path, n.path) == |n.path| == |path|
    ensures !Walk(n, path, full, at, h).1 ==> Routed(n, path) != None
  {
    assert n.path == path;
    RoutedHere(n, path);
  }

  lemma {:induction false} DescendRefuses(n: Node, path: string, full: string, at: nat, h: Handler)
    requires MayWalk(n, path) && at + |path| <= |full| && !HasWild(path) && n.kind != Param
    requires LongestCommonPrefix(path, n.path) == |n.path| < |path| && |n.indices| <= |n.children|
    requires path[|n.path|] != ':'
    ensures !Walk(n, path, full, at, h).1 ==> Routed(n, path) != None
    decreases Size(n), 0
  {
    hide *;
    WalkDescends(n, path, full, at, h);
    if IndexOf(n.indices, path[|n.path|]) < |n.indices| {
      IndexedRefuses(n, path, full, at, h);
    } else {
      StaticWalk(n, path);
      RestIsValid(n, path);
      GrowStatic(n, path[|n.path|..], full, h);
      DescendsGrow(n, path, full, at, h);
    }
  }

  lemma {:induction false} IndexedRefuses(n: Node, path: string, full: string, at: nat, h: Handler)
    requires MayWalk(n, path) && at + |path| <= |full| && !HasWild(path) && n.kind != Param
    requires LongestCommonPrefix(path, n.path) == |n.path| < |path| && |n.indices| <= |n.children|
    requires IndexOf(n.indices, path[|n.path|]) < |n.indices|
    ensures !Descend(n, path, full, at, h).1 ==> Routed(n, path) != None
    decreases Size(n), -1
  {
    hide *;
    var pos := IndexOf(n.indices, path[|n.path|]);
    StaticWalk(n, path);
    PathIsPrefix(n, path);
    RestHasNoWild(path, |n.path|);
    MayWalkIndexed(n, path);
    RaisedSize(n, pos);
    RefusedIsThere(Raise(n.children[pos]), path[|n.path|..], full, at + |n.path|, h);
    RoutedThrough(n, pos, path);
    DescendsIndexed(n, path, full, at, h);
  }

  lemma WalkDescends(n: Node, path: string, full: string, at: nat, h: Handler)
    requires MayWalk(n, path) && at + |path| <= |full|
    requires LongestCommonPrefix(path, n.path) == |n.path| < |path| && |n.indices| <= |n.children|
    ensures Walk(n, path, full, at, h) == Descend(n, path, full, at, h)
  {
  }

  lemma DescendsIndexed(n: Node, path: string, full: string, at: nat, h: Handler)
    requires MayWalk(n, path) && at + |path| <= |full| && n.kind != Param
    requires LongestCommonPrefix(path, n.path) == |n.path| < |path| && |n.indices| <= |n.children|
    requires IndexOf(n.indices, path[|n.path|]) < |n.indices|
    requires MayWalk(Raise(n.children[IndexOf(n.indices, path[|n.path|])]), path[|n.path|..])
    ensures Descend(n, path, full, at, h).1 ==
      Walk(Raise(n.children[IndexOf(n.indices, path[|n.path|])]), path[|n.path|..], full, at + |n.path|, h).1
  {
    hide MayWalk, Walk, IncrementChildPrio, LongestCommonPrefix, IndexOf;
    RaisedChild(n, IndexOf(n.indices, path[|n.path|]));
  }

  lemma DescendsGrow(n: Node, path: string, full: string, at: nat, h: Handler)
    requires MayWalk(n, path) && at + |path| <= |full| && (n.kind == Param ==> |n.children| != 1)
    requires LongestCommonPrefix(path, n.path) == |n.path| < |path| && |n.indices| <= |n.children|
    requires IndexOf(n.indices, path[|n.path|]) == |n.indices| && !(path[|n.path|] == ':' && n.wildChild)
    ensures Descend(n, path, full, at, h) == Grow(n, path[|n.path|..], full, h)
  {
    hide MayWalk, Walk, Grow, IncrementChildPrio;
  }

  /** The route goes through the child the index names. */
  lemma RoutedThrough(n: Node, pos: nat, path: string)
    requires Good(n) && n.kind != Param && pos < |n.indices| <= |n.children|
    requires |n.path| < |path| && n.path <= path && path[|n.path|] == n.indices[pos]
    ensures Routed(n, path) == Routed(Raise(n.children[pos]), path[|n.path|..])
  {
    GoodHeads(n);
    IndexedHead(n, pos);
    HeadIsFound(n.children, pos);
    RaiseRoutes(n.children[pos]);
    RoutedHere(n, path);
    hide Good, Heads;
  }

  /** A route without wildcards is accepted exactly when it is new. */
  lemma StaticAcceptedIff(root: Node, path: string, h: Handler)
    requires GoodRoot(root) && path != "" && !HasWild(path) && ValidPattern(path)
    ensures Add(root, path, h).1 <==> Routed(root, path) == None
  {
    var n := Raise(root).(kind := Root);
    RaisedRoot(root);
    AddExtends(root, path, h);
    hide Good, ValidPattern, Walk, InsertChild, OnlyRoute;
    if n.path == "" && n.children == [] {
      FirstAccepted(n, path, h);
    } else {
      RefusedIsThere(n, path, path, 0, h);
    }
  }

  lemma FirstAccepted(n: Node, path: string, h: Handler)
    requires Good(n) && n.kind == Root && n.path == "" && n.children == [] && n.handler == None
    requires path != "" && ValidPattern(path)
    ensures InsertChild(n, path, path, h).1
  {
    assert Statics(n) == [];
    InsertFresh(n, path, path, h);
  }

  lemma NoWildIsValid(path: string)
    requires !HasWild(path)
    ensures ValidPattern(path)
  {
  }

  // ----- runs

  datatype Call = Call(path: string, handler: Handler)

  predicate ValidCall(c: Call) {
    c.path != "" && ValidPattern(c.path)
  }

  predicate ValidCalls(calls: seq<Call>) {
    forall i | 0 <= i < |calls| :: ValidCall(calls[i])
  }

  /** The tree after a run of calls. */
  function TreeAfter(calls: seq<Call>): (root: Node)
    requires ValidCalls(calls)
    ensures GoodRoot(root)
    decreases |calls|
  {
    if calls == [] then NEW_NODE
    else
      var last := calls[|calls| - 1];
      assert ValidCall(last);
      AddExtends(TreeAfter(calls[..|calls| - 1]), last.path, last.handler);
      Add(TreeAfter(calls[..|calls| - 1]), last.path, last.handler).0
  }

  /** What the last call of a run returned. */
  function LastReturned(calls: seq<Call>): bool
    requires ValidCalls(calls) && calls != []
  {
    var last := calls[|calls| - 1];
    assert ValidCall(last);
    Add(TreeAfter(calls[..|calls| - 1]), last.path, last.handler).1
  }

  /** The handler of the first accepted call for a route. */
  function FirstAcceptedCall(calls: seq<Call>, route: string): Option<Handler>
    requires ValidCalls(calls)
    decreases |calls|
  {
    if calls == [] then None
    else
      var n := |calls| - 1;
      match FirstAcceptedCall(calls[..n], route)
      case Some(h) => Some(h)
      case None => if LastReturned(calls) && calls[n].path == route then Some(calls[n].handler) else None
  }

  /** The handler of the first call for a route. */
  function FirstCall(calls: seq<Call>, route: string): Option<Handler>
    decreases |calls|
  {
    if calls == [] then None
    else
      var n := |calls| - 1;
      match FirstCall(calls[..n], route)
      case Some(h) => Some(h)
      case None => if calls[n].path == route then Some(calls[n].handler) else None
  }

  lemma NothingRouted(route: string)
    ensures Routed(NEW_NODE, route) == None
  {
    RoutedHere(NEW_NODE, route);
  }

  lemma LastCall(calls: seq<Call>)
    requires ValidCalls(calls) && calls != []
    ensures var n := |calls| - 1;
            Extends(TreeAfter(calls[..n]), TreeAfter(calls), calls[n].path, calls[n].handler, LastReturned(calls))
  {
    var n := |calls| - 1;
    assert ValidCall(calls[n]);
    AddExtends(TreeAfter(calls[..n]), calls[n].path, calls[n].handler);
    hide Add, Extends, GoodRoot;
  }

  /** After any run the tree has, for every route, the handler of its first accepted call. */
  lemma {:induction false} TreeIsTable(calls: seq<Call>, route: string)
    requires ValidCalls(calls)
    ensures Routed(TreeAfter(calls), route) == FirstAcceptedCall(calls, route)
    decreases |calls|
  {
    hide Add, GoodRoot, Routed, ValidCall;
    if calls == [] {
      NothingRouted(route);
    } else {
      TreeIsTable(calls[..|calls| - 1], route);
      TreeIsTable(calls[..|calls| - 1], calls[|calls| - 1].path);
      LastCall(calls);
    }
  }

  predicate StaticCalls(calls: seq<Call>) {
    forall i | 0 <= i < |calls| :: calls[i].path != "" && !HasWild(calls[i].path)
  }

  lemma StaticCallsAreValid(calls: seq<Call>)
    requires StaticCalls(calls)
    ensures ValidCalls(calls)
  {
    forall i | 0 <= i < |calls|
      ensures ValidCall(calls[i])
    {
      NoWildIsValid(calls[i].path);
    }
  }

  lemma LastStaticCall(calls: seq<Call>)
    requires StaticCalls(calls) && calls != []
    ensures ValidCalls(calls)
    ensures var n := |calls| - 1;
            LastReturned(calls) <==> Routed(TreeAfter(calls[..n]), calls[n].path) == None
  {
    StaticCallsAreValid(calls);
    var n := |calls| - 1;
    assert ValidCall(calls[n]) && !HasWild(calls[n].path);
    StaticAcceptedIff(TreeAfter(calls[..n]), calls[n].path, calls[n].handler);
    hide Add, GoodRoot, Routed, HasWild;
  }

  /**
   With routes without wildcards the tree is a map: a route has the handler it was first
   registered with, and a call is accepted exactly when its route is new.
   */
  lemma {:induction false} StaticTreeIsMap(calls: seq<Call>, route: string)
    requires StaticCalls(calls)
    ensures ValidCalls(calls) && Routed(TreeAfter(calls), route) == FirstCall(calls, route)
    ensures calls != [] ==>
      (LastReturned(calls) <==> FirstCall(calls[..|calls| - 1], calls[|calls| - 1].path) == None)
    decreases |calls|
  {
    StaticCallsAreValid(calls);
    hide Add, GoodRoot, Routed, HasWild, ValidCall, ValidCalls, LastReturned;
    if calls == [] {
      NothingRouted(route);
    } else {
      var n := |calls| - 1;
      StaticTreeIsMap(calls[..n], route);
      StaticTreeIsMap(calls[..n], calls[n].path);
      LastCall(calls);
      LastStaticCall(calls);
    }
  }
}
