/**
 Which texts are found: every text that fits a route where no two routes compete, and
 otherwise every one the lookup is not led away from into a dead end.
 */
module RouteFinds {
  import opened RouteTree
  import opened RouteTable
  import opened RouteAdd
  import opened RouteWalk
  import opened RouteRuns
  import opened RouteNames
  import opened RouteLean
  import opened RouteFill
  import opened RouteMatch
  import opened RouteLookup
  import opened RouteSearch

  // ----- routes below a node

  /** A text without parameters at the front of a route is at the front of what it matches. */
  lemma {:induction false} MatchPrefix(s: string, r: string, path: string)
    requires ':' !in s
    ensures Match(s + r, path) == if s <= path then Match(r, path[|s|..]) else None
    decreases |s|
  {
    if s == "" {
      assert s + r == r && path[0..] == path;
    } else {
      assert s[0] in s && (s + r)[1..] == s[1..] + r;
      MatchChar(s + r, path);
      if path != "" && path[0] == s[0] {
        MatchPrefix(s[1..], r, path[1..]);
        assert s <= path <==> s[1..] <= path[1..];
        if s <= path {
          assert path[1..][|s| - 1..] == path[|s|..];
        }
      } else {
        assert !(s <= path);
      }
    }
  }

  // ----- no competition

  /** Two routes that agree up to where the one goes on with a parameter and the other with something else. */
  ghost predicate Compete(r: string, q: string) {
    exists k :: 0 <= k < |r| && k < |q| && r[..k] == q[..k] && r[k] == ':' && q[k] != ':'
  }

  /** No node below has both a wildcard child and other children. */
  predicate NoRivals(n: Node) {
    && (n.wildChild ==> n.indices == "")
    && forall i | 0 <= i < |n.children| :: NoRivals(n.children[i])
  }

  /** How a route goes on at a node. */
  datatype Fork = EndsHere | GoesInto(i: nat) | GoesWild

  /** Where a route goes at a node, and what of it and of the text it matches is left behind the node. */
  ghost predicate Goes(n: Node, route: string, path: string, t: Fork) {
    match t
    case EndsHere => route == n.path == path && n.handler.Some?
    case GoesInto(i) =>
      && Passes(n, route) && Passes(n, path)
      && var r, rest := route[|n.path|..], path[|n.path|..];
      && r[0] == rest[0] && r[0] != ':' && i == IndexOf(n.indices, rest[0]) < |n.indices| && i < |n.children|
      && Good(n.children[i]) && n.children[i].kind != Param && Routed(n.children[i], r) == Routed(n, route)
      && Match(r, rest).Some?
    case GoesWild =>
      && Passes(n, route) && Passes(n, path) && n.wildChild && n.children != []
      && var r, rest := route[|n.path|..], path[|n.path|..];
      && r[0] == ':' && Good(WildOf(n)) && WildOf(n).kind == Param
      && Routed(WildOf(n), r) == Routed(n, route) && Match(r, rest).Some?
  }

  lemma NodeTurns(n: Node, route: string, path: string) returns (t: Fork)
    requires Good(n) && n.kind != Param && Routed(n, route).Some? && Match(route, path).Some?
    ensures Goes(n, route, path, t)
  {
    hide *;
    if route == n.path {
      t := EndsHere;
      EndForks(n, path);
    } else {
      PassesBoth(n, route, path);
      if route[|n.path|] == ':' {
        t := GoesWild;
        WildForks(n, route, path);
      } else {
        t := GoesInto(IndexOf(n.indices, path[|n.path|]));
        StaticForks(n, route, path);
      }
    }
  }

  lemma EndForks(n: Node, path: string)
    requires Good(n) && n.kind != Param && Routed(n, n.path).Some? && Match(n.path, path).Some?
    ensures Goes(n, n.path, path, EndsHere)
  {
    RoutedHere(n, n.path);
    StaticText(n);
    hide Good, Match, Routed;
    assert n.path + "" == n.path;
    MatchPrefix(n.path, "", path);
    EmptyMatch(path[|n.path|..]);
  }

  lemma PassesBoth(n: Node, route: string, path: string)
    requires Good(n) && n.kind != Param && Routed(n, route).Some? && Match(route, path).Some? && route != n.path
    ensures |n.path| < |route| && |n.path| < |path| && Passes(n, route) && Passes(n, path)
    ensures var r, rest := route[|n.path|..], path[|n.path|..];
            Match(r, rest).Some? && RoutedIn(n.children, r) == Routed(n, route)
  {
    hide *;
    RoutedPasses(n, route);
    StaticText(n);
    var r := route[|n.path|..];
    assert n.path + r == route;
    MatchPrefix(n.path, r, path);
    EndsTogether(r, path[|n.path|..]);
    PassesIs(n, path);
  }

  lemma RoutedPasses(n: Node, route: string)
    requires Routed(n, route).Some? && route != n.path
    ensures |n.path| < |route| && n.path <= route && Passes(n, route)
    ensures RoutedIn(n.children, route[|n.path|..]) == Routed(n, route)
  {
    RoutedHere(n, route);
    hide Routed, RoutedIn;
  }

  lemma PassesIs(n: Node, path: string)
    ensures Passes(n, path) <==> |n.path| < |path| && n.path <= path
  {
  }

  lemma WildForks(n: Node, route: string, path: string)
    requires Good(n) && n.kind != Param && Routed(n, route).Some? && Passes(n, route) && Passes(n, path)
    requires var r, rest := route[|n.path|..], path[|n.path|..];
             r[0] == ':' && Match(r, rest).Some? && RoutedIn(n.children, r) == Routed(n, route)
    ensures Goes(n, route, path, GoesWild)
  {
    hide Good, Match, Routed, RoutedIn, ChildFor;
    var r := route[|n.path|..];
    RoutedInChild(n.children, r);
    WildIsLast(n, ChildFor(n.children, r[0]));
  }

  lemma StaticForks(n: Node, route: string, path: string)
    requires Good(n) && n.kind != Param && Routed(n, route).Some? && Passes(n, route) && Passes(n, path)
    requires var r, rest := route[|n.path|..], path[|n.path|..];
             r[0] != ':' && Match(r, rest).Some? && RoutedIn(n.children, r) == Routed(n, route)
    ensures Goes(n, route, path, GoesInto(IndexOf(n.indices, path[|n.path|])))
  {
    hide Good, Match, Routed, RoutedIn, IndexOf;
    var r, rest := route[|n.path|..], path[|n.path|..];
    MatchChar(r, rest);
    StaticChild(n, r);
  }

  lemma StaticText(n: Node)
    requires Good(n) && n.kind != Param
    ensures ':' !in n.path
  {
    NoColon(n.path);
  }

  lemma EmptyMatch(text: string)
    ensures Match("", text).Some? <==> text == ""
  {
  }

  lemma EndsTogether(r: string, rest: string)
    requires r != "" && Match(r, rest).Some?
    ensures rest != ""
  {
  }

  /** The child a parameter goes into is the wildcard child. */
  lemma WildIsLast(n: Node, k: nat)
    requires Good(n) && n.kind != Param && k < |n.children| && n.children[k].path != "" && n.children[k].path[0] == ':'
    ensures n.wildChild && k == |n.children| - 1 && Good(WildOf(n)) && WildOf(n).kind == Param
  {
    GoodIsVisitable(n);
    hide HasWild, Visitable, Indexed;
    UnfoldGood(n);
    var st := Statics(n);
    IndexedChildren(st, n.indices);
    if k < |st| {
      assert st[k] == n.children[k];
      StaticHead(n.children[k]);
    }
  }

  lemma StaticHead(n: Node)
    requires IsStatic(n)
    ensures n.path != "" && n.path[0] != ':'
  {
    assert IsWild(':');
  }

  /** What is left behind the wildcard child. */
  ghost predicate WildGoes(m: Node, r: string, rest: string) {
    var e := SegmentEnd(rest);
    && m.path != ""
    && if r == m.path then e == |rest| && m.handler.Some? && Routed(m, r) == m.handler
       else
         && |m.path| < |r| && m.path <= r && e < |rest| && m.children != []
         && var tail := r[|m.path|..];
         && Good(m.children[0]) && m.children[0].kind != Param
         && Routed(m.children[0], tail) == Routed(m, r) && Match(tail, rest[e..]).Some?
  }

  lemma WildTurns(m: Node, r: string, rest: string)
    requires Good(m) && m.kind == Param
    requires r != "" && r[0] == ':' && Routed(m, r).Some? && Match(r, rest).Some?
    ensures WildGoes(m, r, rest)
  {
    RoutedHere(m, r);
    WildParts(m);
    hide Good, Match, Routed, SegmentEnd, ChildFor, RoutedIn;
    if r == m.path {
      WildEndMatches(r, rest);
    } else {
      var tail := r[|m.path|..];
      assert r == m.path + tail;
      RoutedInChild(m.children, tail);
      OnlyChild(m);
      WildTailMatches(m.path, tail, rest);
    }
  }

  lemma WildEndMatches(name: string, rest: string)
    requires name != "" && name[0] == ':' && '/' !in name && Match(name, rest).Some?
    ensures SegmentEnd(rest) == |rest|
  {
    MatchName(name, rest);
    hide Match, SegmentEnd;
    SegmentIs(name, "");
    assert name + "" == name && name[|name|..] == "";
    EmptyMatch(rest[SegmentEnd(rest)..]);
  }

  lemma WildTailMatches(name: string, tail: string, rest: string)
    requires name != "" && name[0] == ':' && '/' !in name && tail != "" && tail[0] == '/' && Match(name + tail, rest).Some?
    ensures SegmentEnd(rest) < |rest| && Match(tail, rest[SegmentEnd(rest)..]).Some?
  {
    MatchName(name + tail, rest);
    hide Match, SegmentEnd;
    SegmentIs(name, tail);
    assert (name + tail)[|name|..] == tail;
    EndsTogether(tail, rest[SegmentEnd(rest)..]);
  }

  lemma WildParts(m: Node)
    requires Good(m) && m.kind == Param
    ensures m.path != "" && '/' !in m.path && |m.children| <= 1
    ensures m.children != [] ==> m.children[0].path != "" && m.children[0].path[0] == '/' && Good(m.children[0]) && m.children[0].kind == Static
  {
  }

  lemma OnlyChild(m: Node)
    requires |m.children| <= 1 && (m.children != [] ==> m.children[0].path != "" && m.children[0].path[0] == '/')
    ensures forall c :: ChildFor(m.children, c) < |m.children| ==> c == '/' && ChildFor(m.children, c) == 0
  {
  }

  // ----- the search finds

  lemma SearchEnds(n: Node)
    requires n.handler.Some?
    ensures Search(n, n.path) == Hit(ValueOf(n))
  {
  }

  lemma SearchGoesInto(n: Node, path: string, i: nat)
    requires Passes(n, path) && i == IndexOf(n.indices, path[|n.path|]) < |n.indices| && i < |n.children|
    ensures var r := Search(n.children[i], path[|n.path|..]);
            Search(n, path) == if r == NoWay && n.wildChild then Through(n, path[|n.path|..]) else r
  {
    hide Through;
  }

  lemma SearchGoesThrough(n: Node, path: string)
    requires Passes(n, path) && n.wildChild && IndexOf(n.indices, path[|n.path|]) == |n.indices|
    ensures Search(n, path) == Through(n, path[|n.path|..])
  {
    hide Through;
  }

  lemma ThroughIs(n: Node, r: string, rest: string)
    requires n.children != [] && WildGoes(WildOf(n), r, rest)
    ensures var m := WildOf(n);
            Through(n, rest) == if r == m.path then Hit(ValueOf(m)) else Search(m.children[0], rest[SegmentEnd(rest)..])
  {
    hide Search, Good, Routed, Match;
  }

  lemma NoRivalsBelow(n: Node, i: nat)
    requires NoRivals(n) && i < |n.children|
    ensures NoRivals(n.children[i])
  {
  }

  lemma NamedBelow(n: Node, above: string, i: nat)
    requires Named(n, above) && i < |n.children|
    ensures Named(n.children[i], above + n.path)
  {
  }

  lemma NamedValue(n: Node, above: string)
    requires Named(n, above) && n.handler.Some?
    ensures ValueOf(n) == Found(n.handler.value, above + n.path)
  {
  }

  lemma RestOfRoute(s: string, route: string, above: string)
    requires s <= route
    ensures above + s + route[|s|..] == above + route
  {
  }

  lemma WildOfIs(n: Node)
    requires n.children != []
    ensures WildOf(n) == n.children[|n.children| - 1]
  {
  }

  lemma EndFound(n: Node, route: string, path: string, above: string)
    requires Goes(n, route, path, EndsHere) && Named(n, above)
    ensures Search(n, path) == Hit(Found(Routed(n, route).value, above + route))
  {
    SearchEnds(n);
    NamedValue(n, above);
    RoutedHere(n, route);
    hide Search, Named, Routed;
  }

  lemma GoesIntoIs(n: Node, route: string, path: string, i: nat)
    requires Goes(n, route, path, GoesInto(i))
    ensures |n.path| < |route| && n.path <= route && Passes(n, path) && |n.path| < |path|
    ensures var r, rest := route[|n.path|..], path[|n.path|..];
            && r[0] == rest[0] && r[0] != ':' && i == IndexOf(n.indices, path[|n.path|]) < |n.indices| && i < |n.children|
            && Good(n.children[i]) && n.children[i].kind != Param && Routed(n.children[i], r) == Routed(n, route)
            && Match(r, rest).Some?
  {
    hide Good, Routed, Match, IndexOf;
  }

  lemma GoesWildIs(n: Node, route: string, path: string)
    requires Goes(n, route, path, GoesWild)
    ensures |n.path| < |route| && n.path <= route && Passes(n, path) && |n.path| < |path| && n.wildChild && n.children != []
    ensures var r, rest := route[|n.path|..], path[|n.path|..];
            && r != "" && r[0] == ':' && Good(WildOf(n)) && WildOf(n).kind == Param
            && Routed(WildOf(n), r) == Routed(n, route) && Match(r, rest).Some?
  {
    hide Good, Routed, Match, WildOf;
  }

  lemma WildGoesIs(m: Node, r: string, rest: string)
    requires WildGoes(m, r, rest)
    ensures SegmentEnd(rest) <= |rest|
    ensures if r == m.path then m.handler.Some? && Routed(m, r) == m.handler
            else
              && |m.path| < |r| && m.path <= r && m.children != []
              && Good(m.children[0]) && m.children[0].kind != Param
              && Routed(m.children[0], r[|m.path|..]) == Routed(m, r) && Match(r[|m.path|..], rest[SegmentEnd(rest)..]).Some?
  {
    hide Good, Routed, Match;
  }

  lemma WildAlone(n: Node, c: char)
    requires NoRivals(n) && n.wildChild
    ensures IndexOf(n.indices, c) == |n.indices|
    ensures n.children != [] ==> NoRivals(WildOf(n))
  {
  }

  lemma WildNamed(n: Node, above: string)
    requires Named(n, above) && n.children != []
    ensures Named(WildOf(n), above + n.path)
  {
  }

  /** Without rivals the search finds the very route a text matches. */
  lemma {:induction false} SearchFindsIt(n: Node, route: string, path: string, above: string)
    requires Good(n) && n.kind != Param && Named(n, above) && NoRivals(n)
    requires Routed(n, route).Some? && Match(route, path).Some?
    ensures Search(n, path) == Hit(Found(Routed(n, route).value, above + route))
    decreases n
  {
    hide *;
    var t := NodeTurns(n, route, path);
    match t
    case EndsHere =>
      EndFound(n, route, path, above);
    case GoesInto(i) =>
      GoesIntoIs(n, route, path, i);
      var r, rest := route[|n.path|..], path[|n.path|..];
      NoRivalsBelow(n, i);
      NamedBelow(n, above, i);
      SearchFindsIt(n.children[i], r, rest, above + n.path);
      RestOfRoute(n.path, route, above);
      SearchGoesInto(n, path, i);
    case GoesWild =>
      GoesWildIs(n, route, path);
      WildAlone(n, path[|n.path|]);
      WildNamed(n, above);
      var r, rest := route[|n.path|..], path[|n.path|..];
      SearchGoesThrough(n, path);
      WildFindsIt(n, r, rest, above + n.path);
      RestOfRoute(n.path, route, above);
  }

  lemma {:induction false} WildFindsIt(n: Node, r: string, rest: string, above: string)
    requires n.children != [] && Good(WildOf(n)) && WildOf(n).kind == Param && NoRivals(WildOf(n)) && Named(WildOf(n), above)
    requires r != "" && r[0] == ':' && Routed(WildOf(n), r).Some? && Match(r, rest).Some?
    ensures Through(n, rest) == Hit(Found(Routed(WildOf(n), r).value, above + r))
    decreases n, 0
  {
    hide *;
    var m := n.children[|n.children| - 1];
    WildOfIs(n);
    WildTurns(m, r, rest);
    ThroughIs(n, r, rest);
    WildGoesIs(m, r, rest);
    if r == m.path {
      NamedValue(m, above);
    } else {
      NoRivalsBelow(m, 0);
      NamedBelow(m, above, 0);
      RestOfRoute(m.path, r, above);
      SearchFindsIt(m.children[0], r[|m.path|..], rest[SegmentEnd(rest)..], above + m.path);
    }
  }

  /** There is a way for a text that matches a route. */
  lemma {:induction false} SomeWay(n: Node, route: string, path: string)
    requires Good(n) && n.kind != Param && Routed(n, route).Some? && Match(route, path).Some?
    ensures Search(n, path) != NoWay
    decreases n, 1
  {
    hide *;
    var t := NodeTurns(n, route, path);
    match t
    case EndsHere =>
      EndsIs(n, route, path);
      SearchEnds(n);
    case GoesInto(i) =>
      GoesIntoIs(n, route, path, i);
      SomeWay(n.children[i], route[|n.path|..], path[|n.path|..]);
      SearchGoesInto(n, path, i);
    case GoesWild =>
      GoesWildIs(n, route, path);
      WildWay(n, route[|n.path|..], path[|n.path|..]);
      ThroughOrNot(n, path);
  }

  lemma EndsIs(n: Node, route: string, path: string)
    requires Goes(n, route, path, EndsHere)
    ensures route == n.path == path && n.handler.Some?
  {
  }

  /** Where there is a way through the wildcard child, there is a way. */
  lemma ThroughOrNot(n: Node, path: string)
    requires Passes(n, path) && n.wildChild && Through(n, path[|n.path|..]) != NoWay
    ensures Search(n, path) != NoWay
  {
    hide Through;
  }

  lemma {:induction false} WildWay(n: Node, r: string, rest: string)
    requires n.children != [] && Good(WildOf(n)) && WildOf(n).kind == Param
    requires r != "" && r[0] == ':' && Routed(WildOf(n), r).Some? && Match(r, rest).Some?
    ensures Through(n, rest) != NoWay
    decreases n, 0
  {
    hide *;
    var m := n.children[|n.children| - 1];
    WildOfIs(n);
    WildTurns(m, r, rest);
    ThroughIs(n, r, rest);
    WildGoesIs(m, r, rest);
    if r != m.path {
      SomeWay(m.children[0], r[|m.path|..], rest[SegmentEnd(rest)..]);
    }
  }

  lemma SegmentStops(rest: string)
    ensures SegmentEnd(rest) < |rest| ==> rest[SegmentEnd(rest)..] != "" && rest[SegmentEnd(rest)..][0] == '/'
  {
  }

  // ----- routes that do not compete

  ghost predicate NoneCompete(root: Node) {
    forall r, q :: Routed(root, r).Some? && Routed(root, q).Some? ==> !Compete(r, q)
  }

  lemma NoRivalsHere(n: Node)
    ensures NoRivals(n) <==>
      (n.wildChild ==> n.indices == "") && forall i | 0 <= i < |n.children| :: NoRivals(n.children[i])
  {
  }

  lemma SeeRoute(root: Node, above: string, n: Node) returns (route: string)
    requires Good(n) && Lean(n) && SitsAt(root, above, n)
    ensures Routed(root, above + route).Some? && n.path <= route
  {
    route := LeadsToRoute(n);
  }

  lemma ChildSits(root: Node, above: string, n: Node, i: nat)
    requires Good(n) && Lean(n) && SitsAt(root, above, n) && i < |n.children|
    ensures Good(n.children[i]) && Lean(n.children[i]) && SitsAt(root, above + n.path, n.children[i])
  {
    UnfoldGood(n);
    GoodHeads(n);
    SitsThrough(root, above, n, i);
  }

  lemma TwoKinds(n: Node)
    requires Good(n) && n.wildChild && n.indices != ""
    ensures |n.children| >= 2 && IsStatic(n.children[0]) && WildOf(n).path != "" && WildOf(n).path[0] == ':'
    ensures n.children[0].path[0] != ':'
  {
    GoodIsVisitable(n);
    WildHead(WildOf(n));
    StaticHead(n.children[0]);
  }

  /** A wildcard child beside a static one has competing routes below it. */
  lemma RivalsCompete(root: Node, above: string, n: Node)
    requires Good(n) && Lean(n) && SitsAt(root, above, n) && n.wildChild && n.indices != ""
    ensures !NoneCompete(root)
  {
    hide *;
    TwoKinds(n);
    WildOfIs(n);
    var last := |n.children| - 1;
    ChildSits(root, above, n, 0);
    ChildSits(root, above, n, last);
    var s := SeeRoute(root, above + n.path, n.children[0]);
    var w := SeeRoute(root, above + n.path, n.children[last]);
    StaticText0(n.children[0]);
    CompeteAt(above + n.path, w, s);
    NotAlone(root, above + n.path + w, above + n.path + s);
  }

  lemma StaticText0(n: Node)
    requires IsStatic(n)
    ensures n.path != ""
  {
  }

  lemma CompeteAt(above: string, w: string, s: string)
    requires w != "" && s != "" && w[0] == ':' && s[0] != ':'
    ensures Compete(above + w, above + s)
  {
    var k := |above|;
    assert (above + w)[..k] == above && (above + s)[..k] == above;
    assert (above + w)[k] == ':' && (above + s)[k] != ':';
  }

  lemma NotAlone(root: Node, r: string, q: string)
    requires Routed(root, r).Some? && Routed(root, q).Some? && Compete(r, q)
    ensures !NoneCompete(root)
  {
  }

  lemma {:induction false} NoneCompeteBelow(root: Node, above: string, n: Node)
    requires Good(n) && Lean(n) && SitsAt(root, above, n) && NoneCompete(root)
    ensures NoRivals(n)
    decreases n
  {
    hide *;
    NoRivalsHere(n);
    if n.wildChild && n.indices != "" {
      RivalsCompete(root, above, n);
    }
    forall i | 0 <= i < |n.children|
      ensures NoRivals(n.children[i])
    {
      ChildSits(root, above, n, i);
      NoneCompeteBelow(root, above + n.path, n.children[i]);
    }
  }

  lemma RootSits(root: Node)
    ensures SitsAt(root, "", root)
  {
    assert forall s: string :: "" + s == s;
  }

  // ----- after any calls

  /** No two accepted routes agree up to where one goes on with a parameter and the other does not. */
  ghost predicate NonCompeting(calls: seq<Call>)
    requires ValidCalls(calls)
  {
    forall r, q :: FirstAcceptedCall(calls, r).Some? && FirstAcceptedCall(calls, q).Some? ==> !Compete(r, q)
  }

  lemma {:induction false} AcceptedIsValid(calls: seq<Call>, route: string)
    requires ValidCalls(calls) && FirstAcceptedCall(calls, route).Some?
    ensures ValidPattern(route) && exists i :: 0 <= i < |calls| && calls[i].path == route
    decreases |calls|
  {
    hide LastReturned, ValidPattern;
    var n := |calls| - 1;
    if calls[n].path == route {
      assert ValidCall(calls[n]);
    } else {
      AcceptedIsValid(calls[..n], route);
      var i :| 0 <= i < n && calls[..n][i].path == route;
      assert calls[i].path == route;
    }
  }

  /** It is enough that no two paths called compete. */
  lemma CalledApart(calls: seq<Call>)
    requires ValidCalls(calls)
    requires forall i, j | 0 <= i < |calls| && 0 <= j < |calls| :: !Compete(calls[i].path, calls[j].path)
    ensures NonCompeting(calls)
  {
    hide Compete, FirstAcceptedCall, ValidCall;
    forall r, q | FirstAcceptedCall(calls, r).Some? && FirstAcceptedCall(calls, q).Some?
      ensures !Compete(r, q)
    {
      AcceptedIsValid(calls, r);
      AcceptedIsValid(calls, q);
    }
  }

  lemma TreeIsGood(calls: seq<Call>)
    requires ValidCalls(calls)
    ensures Good(TreeAfter(calls)) && TreeAfter(calls).kind != Param && Named(TreeAfter(calls), "")
  {
    TreeIsNamed(calls);
    NewIsGood();
    hide Add, Good, Named;
  }

  lemma NewIsGood()
    ensures Good(NEW_NODE) && NEW_NODE.kind != Param
  {
  }

  lemma TreeHasNoRivals(calls: seq<Call>)
    requires ValidCalls(calls) && NonCompeting(calls)
    ensures NoRivals(TreeAfter(calls))
  {
    hide *;
    var root := TreeAfter(calls);
    TreeIsLean(calls);
    TreeIsGood(calls);
    if root == NEW_NODE {
      NewHasNoRivals();
    } else {
      SameTables(calls);
      RootSits(root);
      NoneCompeteBelow(root, "", root);
    }
  }

  lemma NewHasNoRivals()
    ensures NoRivals(NEW_NODE)
  {
  }

  lemma SameTables(calls: seq<Call>)
    requires ValidCalls(calls) && NonCompeting(calls)
    ensures NoneCompete(TreeAfter(calls))
  {
    hide Compete, FirstAcceptedCall, TreeAfter, Routed;
    forall r, q | Routed(TreeAfter(calls), r).Some? && Routed(TreeAfter(calls), q).Some?
      ensures !Compete(r, q)
    {
      TreeIsTable(calls, r);
      TreeIsTable(calls, q);
    }
  }

  /** Where no accepted routes compete, the lookup finds exactly the route that a text fits, with its values. */
  lemma FindsExactly(calls: seq<Call>, text: string, route: string, h: Handler, ps: seq<Binding>)
    requires ValidCalls(calls) && NonCompeting(calls)
    ensures Lookup(TreeAfter(calls), text) == (Found(h, route), ps) <==>
      FirstAcceptedCall(calls, route) == Some(h) && Fits(route, ps, text)
  {
    hide *;
    var root := TreeAfter(calls);
    var (value, qs) := Lookup(root, text);
    LookupAfterRun(calls, text);
    if FirstAcceptedCall(calls, route) == Some(h) && Fits(route, ps, text) {
      TreeHasNoRivals(calls);
      TreeIsGood(calls);
      TreeIsTable(calls, route);
      AcceptedIsValid(calls, route);
      FitsIffMatch(route, ps, text);
      SearchFindsIt(root, route, text, "");
      assert "" + route == route;
      LookupIsSearch(root, text);
      FitsIffMatch(route, qs, text);
    }
  }

  /** So a text is found exactly if it fits a route. */
  lemma FoundIff(calls: seq<Call>, text: string)
    requires ValidCalls(calls) && NonCompeting(calls)
    ensures Lookup(TreeAfter(calls), text).0.Found? <==>
      exists route, ps :: FirstAcceptedCall(calls, route).Some? && Fits(route, ps, text)
  {
    hide *;
    var (value, qs) := Lookup(TreeAfter(calls), text);
    LookupAfterRun(calls, text);
    if exists route, ps :: FirstAcceptedCall(calls, route).Some? && Fits(route, ps, text) {
      var route, ps :| FirstAcceptedCall(calls, route).Some? && Fits(route, ps, text);
      FindsExactly(calls, text, route, FirstAcceptedCall(calls, route).value, ps);
    }
  }
}
