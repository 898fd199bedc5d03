/**
 The router itself: a root, and the calls it has taken.
 */
module Routing {
  import opened RouteTree
  import opened RouteTable
  import opened RouteRuns
  import opened RadixTree
  import opened RouteNames
  import opened RouteFill
  import opened RouteLookup
  import opened RouteFinds
  import opened RouteAccepts
  import opened RouteByTable
  import opened RouteDeadEnds

  class Router {
    var root: TreeNode

    /** Every call of `add` so far. */
    ghost var calls: seq<Call>

    ghost predicate Valid()
      reads this, root, root.Repr
    {
      this !in root.Repr && root.Valid() && ValidCalls(calls) && root.Tree == TreeAfter(calls)
    }

    lemma ValidIs()
      ensures Valid() <==> this !in root.Repr && root.Valid() && ValidCalls(calls) && root.Tree == TreeAfter(calls)
    {
    }

    constructor ()
      ensures Valid() && fresh(root.Repr) && calls == []
    {
      root := new TreeNode();
      calls := [];
    }

    /** The tree on the heap is the table of the routes accepted. */
    lemma IsTable(route: string)
      requires Valid()
      ensures Routed(root.Tree, route) == FirstAcceptedCall(calls, route)
    {
      TreeIsTable(calls, route);
    }

    /**
     `add`: the first handler of a route stays, every other route keeps what it had, and
     a route is accepted exactly if it is new and clashes with none that was accepted.
     */
    method Add(path: string, h: Handler) returns (ok: bool)
      requires Valid() && path != "" && ValidPattern(path)
      modifies this`calls, root.Repr
      ensures Valid() && fresh(root.Repr - old(root.Repr)) && old(root.Repr) <= root.Repr
      ensures calls == old(calls) + [Call(path, h)] && ok == LastReturned(calls)
      ensures Extends(old(root.Tree), root.Tree, path, h, ok)
      ensures ok <==> IsWelcome(old(calls), path)
      ensures StaticCalls(calls) ==> (ok <==> FirstCall(old(calls), path) == None)
    {
      hide *;
      ValidIs();
      OneMore(calls, path, h);
      AddStep(root.Tree, path, h);
      root.Shape();
      root.RaiseThis();
      root.Shape();
      if root.path == "" && root.children == [] {
        root.MakeRoot();
        ok := root.Insert(path, path, h);
      } else {
        ok := root.Walk(path, path, 0, h);
      }
      calls := calls + [Call(path, h)];
      ValidIs();
    }

    /**
     `get`: a handler found is the first one accepted for the route it is returned with, and
     the values bound fill that route to the text; with static routes it is the map of first
     registrations, and a static route is found whatever else there is. In every case it is
     what the search through the accepted routes comes to; where no accepted routes compete,
     or the text has no dead end, a text that fits a route is found.
     */
    method Get(text: string) returns (value: Value, ps: seq<Binding>)
      requires Valid()
      ensures (value, ps) == Lookup(root.Tree, text)
      ensures value.Found? ==>
        FirstAcceptedCall(calls, value.fullPath) == Some(value.handler) && Fits(value.fullPath, ps, text)
      ensures StaticCalls(calls) ==>
        value == match FirstCall(calls, text) case Some(h) => Found(h, text) case None => Missing
      ensures ':' !in text && FirstAcceptedCall(calls, text).Some? ==>
        value == Found(FirstAcceptedCall(calls, text).value, text) && ps == []
      ensures value == FindIn(calls, text)
      ensures NonCompeting(calls) ==>
        forall route, fit :: FirstAcceptedCall(calls, route).Some? && Fits(route, fit, text) ==>
          value == Found(FirstAcceptedCall(calls, route).value, route) && ps == fit
      ensures (forall at, left, bs :: !DeadEnd(calls, text, at, left, bs)) ==>
        (value.Found? <==> exists route, fit :: FirstAcceptedCall(calls, route).Some? && Fits(route, fit, text))
    {
      hide *;
      ValidIs();
      LookupAfterRun(calls, text);
      StaticFoundAfterRun(calls, text);
      LookupByTable(calls, text);
      if StaticCalls(calls) {
        StaticLookupIsMap(calls, text);
      }
      if NonCompeting(calls) {
        AllFound(calls, text);
      }
      if forall at, left, bs :: !DeadEnd(calls, text, at, left, bs) {
        FoundUnlessDeadEnd(calls, text);
      }
      var tree := root.Read();
      value, ps := GetValue(tree, text);
    }
  }

  lemma AllFound(calls: seq<Call>, text: string)
    requires ValidCalls(calls) && NonCompeting(calls)
    ensures forall route, fit :: FirstAcceptedCall(calls, route).Some? && Fits(route, fit, text) ==>
      Lookup(TreeAfter(calls), text) == (Found(FirstAcceptedCall(calls, route).value, route), fit)
  {
    hide *;
    forall route, fit | FirstAcceptedCall(calls, route).Some? && Fits(route, fit, text)
      ensures Lookup(TreeAfter(calls), text) == (Found(FirstAcceptedCall(calls, route).value, route), fit)
    {
      FindsExactly(calls, text, route, FirstAcceptedCall(calls, route).value, fit);
    }
  }

  /** The tree after one more call. */
  lemma OneMore(calls: seq<Call>, path: string, h: Handler)
    requires ValidCalls(calls) && path != "" && ValidPattern(path)
    ensures var more := calls + [Call(path, h)];
            && ValidCalls(more) && GoodRoot(TreeAfter(calls))
            && (TreeAfter(more), LastReturned(more)) == Add(TreeAfter(calls), path, h)
            && Extends(TreeAfter(calls), TreeAfter(more), path, h, LastReturned(more))
            && (LastReturned(more) <==> IsWelcome(calls, path))
            && (StaticCalls(more) ==> (LastReturned(more) <==> FirstCall(calls, path) == None))
  {
    hide Add, GoodRoot, ValidPattern, Extends, IsWelcome, FirstAcceptedCall, FirstCall;
    var more := calls + [Call(path, h)];
    assert more[..|more| - 1] == calls && more[|more| - 1] == Call(path, h);
    assert forall i | 0 <= i < |calls| :: more[i] == calls[i];
    LastCall(more);
    AcceptedIff(more);
    if StaticCalls(more) {
      StaticTreeIsMap(more, path);
    }
  }

  /** A call as the root sees it, its priority raised. */
  lemma AddStep(root: Node, path: string, h: Handler)
    requires GoodRoot(root) && path != "" && ValidPattern(path)
    ensures var n := Raise(root);
            if n.path == "" && n.children == [] then Add(root, path, h) == InsertChild(n.(kind := Root), path, path, h)
            else MayWalk(n, path) && Add(root, path, h) == RouteTree.Walk(n, path, path, 0, h)
  {
    hide Walk, InsertChild, ValidPattern;
  }
}
