/**
 The lookup told from the routes alone: a search along the text through the set of accepted
 routes, which gives up in the same places as the search through the tree. So what is
 found does not depend on the shape that the order of the calls gave the tree.
 */
module RouteByTable {
  import opened RouteTree
  import opened RouteTable
  import opened RouteAdd
  import opened RouteRuns
  import opened RouteNames
  import opened RouteLean
  import opened RouteFill
  import opened RouteMatch
  import opened RouteLookup
  import opened RouteSearch
  import opened RouteFinds

  // ----- the search

  /** A route found, a way that ends where another may be tried, or one that ends the search. */
  datatype Outcome = Ends(route: string) | Nothing | Stop

  /** What follows `s` in the routes that begin with it. */
  ghost function After(routes: iset<string>, s: string): iset<string> {
    iset t: string | s + t in routes
  }

  /** Some route begins with `c`. */
  ghost predicate GoesOn(routes: iset<string>, c: char) {
    exists t: string :: [c] + t in routes
  }

  /** A route ends here, or routes part here, or a parameter begins. */
  ghost predicate Parting(routes: iset<string>) {
    "" in routes || GoesOn(routes, ':') || exists c, d :: c != d && GoesOn(routes, c) && GoesOn(routes, d)
  }

  /** The parameter the routes go on with. */
  ghost function Parameter(routes: iset<string>): string
    requires GoesOn(routes, ':')
  {
    var t: string :| [':'] + t in routes;
    WildcardName([':'] + t)
  }

  function Behind(s: string, o: Outcome): Outcome {
    if o.Ends? then Ends(s + o.route) else o
  }

  /** Where routes have not parted since `edge` was left of the text, now `text`. */
  ghost function Along(routes: iset<string>, text: string, edge: string): Outcome
    decreases |text|, 2
  {
    if Parting(routes) then
      if text != "" then Onward(routes, text)
      else if "" in routes then Ends("")
      else if edge == "/" then Stop
      else Nothing
    else if text != "" && GoesOn(routes, text[0]) then
      Behind(text[..1], Along(After(routes, text[..1]), text[1..], edge))
    else if edge == "/" || (text == "" && "/" in routes) then Stop
    else Nothing
  }

  /** Where routes part: with the character of the text first, and by the parameter if nothing is found that way. */
  ghost function Onward(routes: iset<string>, text: string): Outcome
    requires text != ""
    decreases |text|, 1
  {
    if text[0] != ':' && GoesOn(routes, text[0]) then
      var o := Behind(text[..1], Along(After(routes, text[..1]), text[1..], text));
      if o == Nothing && GoesOn(routes, ':') then ByParameter(routes, text) else o
    else if GoesOn(routes, ':') then ByParameter(routes, text)
    else if text == "/" then Stop
    else Nothing
  }

  /** The parameter takes a segment; there is no way back from behind it but where routes go on. */
  ghost function ByParameter(routes: iset<string>, text: string): Outcome
    requires text != "" && GoesOn(routes, ':')
    decreases |text|, 0
  {
    var name, e := Parameter(routes), SegmentEnd(text);
    var rest := After(routes, name);
    if e == |text| then (if "" in rest then Ends(name) else Stop)
    else if GoesOn(rest, '/') then Behind(name + "/", Along(After(rest, "/"), text[e + 1..], text[e..]))
    else Stop
  }

  // ----- the routes of a node

  ghost function RoutesOf(n: Node): iset<string> {
    iset s: string | Routed(n, s).Some?
  }

  /** What follows the node's path. */
  ghost function Below(n: Node): iset<string> {
    After(RoutesOf(n), n.path)
  }

  lemma AfterTwice(routes: iset<string>, s: string, t: string)
    ensures After(After(routes, s), t) == After(routes, s + t)
  {
    forall u: string
      ensures u in After(After(routes, s), t) <==> u in After(routes, s + t)
    {
      assert s + (t + u) == s + t + u;
    }
  }

  lemma BehindTwice(s: string, t: string, o: Outcome)
    ensures Behind(s, Behind(t, o)) == Behind(s + t, o)
  {
    if o.Ends? {
      assert s + (t + o.route) == s + t + o.route;
    }
  }

  lemma AfterNone(routes: iset<string>)
    ensures After(routes, "") == routes
  {
    forall u: string
      ensures u in After(routes, "") <==> u in routes
    {
      assert "" + u == u;
    }
  }

  lemma BehindNone(o: Outcome)
    ensures Behind("", o) == o
  {
    if o.Ends? {
      assert "" + o.route == o.route;
    }
  }

  lemma InAfter(n: Node, s: string, t: string)
    ensures t in After(RoutesOf(n), s) <==> Routed(n, s + t).Some?
  {
  }

  lemma PathLeadsOn(n: Node, k: nat)
    requires Good(n) && Lean(n) && k < |n.path|
    ensures GoesOn(After(RoutesOf(n), n.path[..k]), n.path[k])
  {
    hide *;
    var route := LeadsToRoute(n);
    Divided(n.path, route, k);
    var t := route[k + 1..];
    InAfter(n, n.path[..k], [n.path[k]] + t);
    Witness(After(RoutesOf(n), n.path[..k]), n.path[k], t);
  }

  lemma Divided(s: string, t: string, k: nat)
    requires s <= t && k < |s|
    ensures s[..k] + ([s[k]] + t[k + 1..]) == t
  {
    assert t[..|s|] == s;
  }

  lemma Witness(routes: iset<string>, c: char, t: string)
    requires [c] + t in routes
    ensures GoesOn(routes, c)
  {
  }

  lemma PathLeadsOnly(n: Node, k: nat, t: string)
    requires k < |n.path| && t in After(RoutesOf(n), n.path[..k])
    ensures t != "" && t[0] == n.path[k]
  {
    var s := n.path[..k] + t;
    InAfter(n, n.path[..k], t);
    RoutedHere(n, s);
    hide Routed, RoutesOf, After;
    assert n.path <= s;
    assert s[k] == n.path[k];
  }

  /** Inside a node's path no route ends and none part. */
  lemma InsidePath(n: Node, k: nat)
    requires Good(n) && Lean(n) && n.kind != Param && k < |n.path|
    ensures var routes := After(RoutesOf(n), n.path[..k]);
            !Parting(routes) && forall c :: GoesOn(routes, c) <==> c == n.path[k]
  {
    var routes := After(RoutesOf(n), n.path[..k]);
    hide Good, Lean, Routed, RoutesOf, After;
    PathLeadsOn(n, k);
    NoColonInside(n, k);
    forall t | t in routes
      ensures t != "" && t[0] == n.path[k]
    {
      PathLeadsOnly(n, k, t);
    }
  }

  lemma NoColonInside(n: Node, k: nat)
    requires Good(n) && n.kind != Param && k < |n.path|
    ensures n.path[k] != ':'
  {
    assert !HasWild(n.path);
    assert IsWild(':');
  }

  /** The search goes along the node's path as far as the text does. */
  lemma {:induction false} AlongPath(n: Node, path: string, k: nat)
    requires Good(n) && Lean(n) && n.kind != Param && k <= |n.path| && k <= |path| && path[..k] == n.path[..k]
    ensures Along(RoutesOf(n), path, path) == Behind(path[..k], Along(After(RoutesOf(n), path[..k]), path[k..], path))
  {
    if k == 0 {
      AfterNone(RoutesOf(n));
      BehindNone(Along(RoutesOf(n), path, path));
      assert path[0..] == path && path[..0] == "";
    } else {
      var j := k - 1;
      assert path[..j] == path[..k][..j] == n.path[..j];
      assert path[j] == path[..k][j] == n.path[j];
      AlongPath(n, path, j);
      InsidePath(n, j);
      var routes := After(RoutesOf(n), path[..j]);
      assert path[j..][..1] == path[j..k] && path[j..][1..] == path[k..];
      assert path[..j] + path[j..k] == path[..k];
      AfterTwice(RoutesOf(n), path[..j], path[j..k]);
      BehindTwice(path[..j], path[j..k], Along(After(RoutesOf(n), path[..k]), path[k..], path));
      hide Good, Lean, Routed, RoutesOf, After, Parting, GoesOn;
      assert Along(routes, path[j..], path) == Behind(path[j..k], Along(After(routes, path[j..k]), path[k..], path));
    }
  }

  // ----- where the node ends

  lemma BelowIs(n: Node, s: string)
    ensures s in Below(n) <==> Routed(n, n.path + s).Some?
  {
  }

  lemma BelowEnds(n: Node)
    ensures "" in Below(n) <==> n.handler.Some?
  {
    BelowIs(n, "");
    assert n.path + "" == n.path;
    RoutedHere(n, n.path);
  }

  lemma BelowRoutes(n: Node, s: string)
    requires s != ""
    ensures Routed(n, n.path + s) == RoutedIn(n.children, s)
  {
    RoutedHere(n, n.path + s);
    assert (n.path + s)[|n.path|..] == s;
  }

  /** Each child leads on with its first character. */
  lemma ChildGoesOn(n: Node, i: nat)
    requires Good(n) && Lean(n) && i < |n.children|
    ensures n.children[i].path != "" && GoesOn(Below(n), n.children[i].path[0])
  {
    hide *;
    var child := n.children[i];
    GoodHeads(n);
    ChildIsGood(n, i);
    LeanBelow(n, i);
    var route := LeadsToRoute(child);
    HeadIsFound(n.children, i);
    HeadOf(n.children, i);
    BeginsLike(child.path, route);
    BelowRoutes(n, route);
    BelowIs(n, route);
    InChild(n.children, i, route);
    Witness(Below(n), child.path[0], route[1..]);
  }

  lemma ChildIsGood(n: Node, i: nat)
    requires Good(n) && i < |n.children|
    ensures Good(n.children[i])
  {
  }

  lemma HeadOf(cs: seq<Node>, i: nat)
    requires Heads(cs) && i < |cs|
    ensures cs[i].path != ""
  {
  }

  lemma BeginsLike(s: string, t: string)
    requires s <= t && s != ""
    ensures t != "" && t[0] == s[0] && [s[0]] + t[1..] == t
  {
  }

  lemma InChild(cs: seq<Node>, i: nat, s: string)
    requires i < |cs| && s != "" && ChildFor(cs, s[0]) == i
    ensures RoutedIn(cs, s) == Routed(cs[i], s)
  {
    hide Routed, ChildFor;
  }

  lemma GoesOnChild(n: Node, c: char)
    requires GoesOn(Below(n), c)
    ensures ChildFor(n.children, c) < |n.children|
  {
    var t: string :| [c] + t in Below(n);
    BelowIs(n, [c] + t);
    BelowRoutes(n, [c] + t);
  }

  /** The routes go on with the characters of the index string, and with a parameter if there is a wildcard child. */
  lemma GoesOnIff(n: Node, c: char)
    requires Good(n) && Lean(n) && n.kind != Param
    ensures GoesOn(Below(n), c) <==> if c == ':' then n.wildChild else IndexOf(n.indices, c) < |n.indices|
  {
    if c == ':' {
      WildGoesOn(n);
    } else {
      StaticGoesOn(n, c);
    }
  }

  lemma WildGoesOn(n: Node)
    requires Good(n) && Lean(n) && n.kind != Param
    ensures GoesOn(Below(n), ':') <==> n.wildChild
  {
    hide *;
    if n.wildChild {
      WildIsParam(n);
      ChildGoesOn(n, |n.children| - 1);
    }
    if GoesOn(Below(n), ':') {
      GoesOnChild(n, ':');
      var k := ChildFor(n.children, ':');
      ChildForHead(n.children, ':');
      WildIsLast(n, k);
    }
  }

  lemma ChildForHead(cs: seq<Node>, c: char)
    ensures var k := ChildFor(cs, c); k < |cs| ==> cs[k].path != "" && cs[k].path[0] == c
  {
  }

  lemma WildIsParam(n: Node)
    requires Good(n) && n.kind != Param && n.wildChild
    ensures n.children != []
    ensures var m := n.children[|n.children| - 1];
            Good(m) && m.kind == Param && m.path != "" && m.path[0] == ':' && '/' !in m.path
  {
    UnfoldGood(n);
    hide Indexed, HasWild, ValidWildcard;
    var m := n.children[|n.children| - 1];
    WildHead(m);
    WildParts(m);
  }

  lemma StaticGoesOn(n: Node, c: char)
    requires Good(n) && Lean(n) && n.kind != Param && c != ':'
    ensures GoesOn(Below(n), c) <==> IndexOf(n.indices, c) < |n.indices|
  {
    var i := IndexOf(n.indices, c);
    StaticAt(n, i);
    if i < |n.indices| {
      ChildGoesOn(n, i);
    } else if GoesOn(Below(n), c) {
      GoesOnChild(n, c);
      NoneBegins(n, c);
    }
  }

  /** Where a node ends a route ends or routes part. */
  lemma PathEndsParting(n: Node)
    requires Good(n) && Lean(n) && n.kind != Param
    ensures Parting(Below(n))
  {
    hide Good;
    BelowEnds(n);
    if n.handler == None {
      WildGoesOn(n);
      if !n.wildChild {
        assert Needed(n);
        ChildGoesOn(n, 0);
        ChildGoesOn(n, 1);
        GoodHeads(n);
        hide Lean;
        assert n.children[0].path[0] != n.children[1].path[0];
      }
    }
  }

  // ----- the two searches agree

  /** The node's search comes to what the search through its routes comes to. */
  ghost predicate Agrees(n: Node, above: string, r: Result, o: Outcome) {
    match r
    case Hit(value) =>
      o.Ends? && Routed(n, o.route).Some? && value == Found(Routed(n, o.route).value, above + o.route)
    case NoWay => o == Nothing
    case GivesUp => o == Stop
  }

  lemma AgreesBelow(n: Node, above: string, child: Node, r: Result, o: Outcome)
    requires child in n.children && Heads(n.children) && Agrees(child, above + n.path, r, o)
    ensures Agrees(n, above, r, Behind(n.path, o))
  {
    if r.Hit? {
      var s := o.route;
      var i :| 0 <= i < |n.children| && n.children[i] == child;
      HeadIsFound(n.children, i);
      RoutedHere(child, s);
      assert s != "" && s[0] == child.path[0];
      BelowRoutes(n, s);
      assert above + n.path + s == above + (n.path + s);
    }
  }

  lemma ChildBelow(n: Node, i: nat, c: char)
    requires Heads(n.children) && i < |n.children| && n.children[i].path[0] == c
    ensures After(RoutesOf(n.children[i]), [c]) == After(Below(n), [c])
  {
    var child := n.children[i];
    HeadIsFound(n.children, i);
    forall t: string
      ensures t in After(RoutesOf(child), [c]) <==> t in After(Below(n), [c])
    {
      InAfter(child, [c], t);
      BelowIs(n, [c] + t);
      BelowRoutes(n, [c] + t);
    }
  }

  lemma FirstOf(s: string)
    requires s != ""
    ensures s[..1] == [s[0]]
  {
  }

  /** Into the child that begins with the next character of the text. */
  lemma AlongChild(n: Node, i: nat, rest: string)
    requires Good(n) && Lean(n) && i < |n.children| && n.children[i].kind != Param
    requires rest != "" && n.children[i].path != "" && n.children[i].path[0] == rest[0]
    ensures Good(n.children[i]) && Lean(n.children[i])
    ensures Along(RoutesOf(n.children[i]), rest, rest) == Behind(rest[..1], Along(After(Below(n), rest[..1]), rest[1..], rest))
  {
    var child := n.children[i];
    UnfoldGood(n);
    GoodHeads(n);
    LeanHere(n);
    assert child in n.children;
    hide Good, Along, After, Below, RoutesOf;
    assert Lean(child);
    FirstOf(rest);
    FirstOf(child.path);
    AlongPath(child, rest, 1);
    ChildBelow(n, i, rest[0]);
  }

  lemma NamedBelow(n: Node, above: string, i: nat)
    requires Named(n, above) && i < |n.children|
    ensures Named(n.children[i], above + n.path)
  {
  }

  /** The search below a node comes to what the search through its routes comes to. */
  lemma {:induction false} SearchByTable(n: Node, path: string, above: string)
    requires Good(n) && Lean(n) && n.kind != Param && Named(n, above)
    ensures Agrees(n, above, Search(n, path), Along(RoutesOf(n), path, path))
    decreases n, 2
  {
    hide *;
    var k := LongestCommonPrefix(path, n.path);
    AlongPath(n, path, k);
    if k < |n.path| {
      PartsInside(n, path, above, k);
    } else {
      CommonIsPath(n, path);
      PathEndsParting(n);
      if k == |path| {
        PathIsEnd(n, path, above);
      } else {
        OnwardAgrees(n, path, above);
        AlongEnd(n, path);
      }
    }
  }

  lemma CommonIsPath(n: Node, path: string)
    requires LongestCommonPrefix(path, n.path) == |n.path|
    ensures n.path <= path && path[..|n.path|] == n.path
  {
  }

  lemma AlongEnd(n: Node, path: string)
    requires n.path <= path && |n.path| < |path| && Parting(Below(n))
    ensures path[|n.path|..] != ""
    ensures Along(After(RoutesOf(n), path[..|n.path|]), path[|n.path|..], path) == Onward(Below(n), path[|n.path|..])
    ensures path[..|n.path|] == n.path
  {
    hide Parting, Onward, RoutesOf;
    assert path[..|n.path|] == n.path;
    assert After(RoutesOf(n), path[..|n.path|]) == Below(n);
  }

  /** The text leaves the node's path, or ends inside it. */
  lemma PartsInside(n: Node, path: string, above: string, k: nat)
    requires Good(n) && Lean(n) && n.kind != Param && k == LongestCommonPrefix(path, n.path) < |n.path|
    ensures Agrees(n, above, Search(n, path), Behind(path[..k], Along(After(RoutesOf(n), path[..k]), path[k..], path)))
  {
    InsidePath(n, k);
    var routes := After(RoutesOf(n), path[..k]);
    hide Good, Lean, RoutesOf, After, Parting, Routed;
    LeavesPath(n, path);
    if k == |path| {
      assert path[..k] == path && path[k..] == "";
      InAfter(n, path, "/");
      OneSlashShort(n, path);
    } else {
      assert path[k..][0] == path[k] != n.path[k];
    }
    SearchStops(n, path);
    hide Search, GoesOn, Onward;
  }

  lemma LeavesPath(n: Node, path: string)
    requires LongestCommonPrefix(path, n.path) < |n.path|
    ensures !(n.path <= path)
    ensures LongestCommonPrefix(path, n.path) < |path| ==> !(path <= n.path)
  {
    CommonPrefix(path, n.path);
    CommonPrefix(n.path, path);
    var k := LongestCommonPrefix(path, n.path);
    if k < |path| {
      assert path[k] != n.path[k];
    }
  }

  lemma OneSlashShort(n: Node, path: string)
    requires path <= n.path && |path| < |n.path|
    ensures Routed(n, path + "/").Some? <==> (|n.path| == |path| + 1 && n.path[|path|] == '/' && n.handler.Some?)
  {
    RoutedHere(n, path + "/");
    hide Routed;
    if |n.path| == |path| + 1 && n.path[|path|] == '/' {
      assert n.path == path + "/";
    }
    if n.path == path + "/" {
      assert n.path[|path|] == '/';
    }
  }

  lemma SearchStops(n: Node, path: string)
    requires !(n.path <= path)
    ensures Search(n, path) == if Hinted(n, path) then GivesUp else NoWay
  {
    hide Hinted, Through;
  }

  lemma PathIsEnd(n: Node, path: string, above: string)
    requires Named(n, above) && path == n.path && Parting(Below(n))
    ensures Agrees(n, above, Search(n, path), Behind(path[..|path|], Along(After(RoutesOf(n), path[..|path|]), path[|path|..], path)))
  {
    assert path[..|path|] == path && path[|path|..] == "";
    assert After(RoutesOf(n), path) == Below(n);
    BelowEnds(n);
    RoutedHere(n, path);
    assert path + "" == path;
    hide Below, Parting, Routed, Onward, Through;
  }

  lemma BehindIs(s: string, o: Outcome)
    ensures (Behind(s, o) == Nothing <==> o == Nothing) && (Behind(s, o) == Stop <==> o == Stop)
  {
  }

  lemma AgreesNothing(n: Node, above: string, r: Result, o: Outcome)
    requires Agrees(n, above, r, o)
    ensures o == Nothing <==> r == NoWay
  {
  }

  lemma NothingAgrees(n: Node, above: string)
    ensures Agrees(n, above, NoWay, Nothing) && Agrees(n, above, GivesUp, Stop)
  {
  }

  lemma OnwardIs(routes: iset<string>, text: string, o: Outcome)
    requires text != "" && text[0] != ':' && GoesOn(routes, text[0])
    requires o == Behind(text[..1], Along(After(routes, text[..1]), text[1..], text))
    ensures Onward(routes, text) == if o == Nothing && GoesOn(routes, ':') then ByParameter(routes, text) else o
  {
  }

  lemma OnwardElse(routes: iset<string>, text: string)
    requires text != "" && (text[0] == ':' || !GoesOn(routes, text[0]))
    ensures Onward(routes, text) ==
      if GoesOn(routes, ':') then ByParameter(routes, text) else if text == "/" then Stop else Nothing
  {
  }

  lemma SearchPasses(n: Node, path: string)
    requires n.path <= path && |n.path| < |path| && |n.indices| <= |n.children|
    ensures var rest := path[|n.path|..]; var i := IndexOf(n.indices, rest[0]);
            Search(n, path) ==
              if i < |n.indices| then
                var r := Search(n.children[i], rest);
                if r == NoWay && n.wildChild then Through(n, rest) else r
              else if n.wildChild then Through(n, rest)
              else if rest == "/" then GivesUp
              else NoWay
  {
    hide Through;
  }

  lemma NoColonIndex(n: Node, c: char)
    requires Good(n) && n.kind != Param && IndexOf(n.indices, c) < |n.indices|
    ensures c != ':' && IndexOf(n.indices, c) < |n.children|
    ensures var child := n.children[IndexOf(n.indices, c)]; child.kind != Param && child.path != "" && child.path[0] == c
  {
    var i := IndexOf(n.indices, c);
    UnfoldGood(n);
    var st := Statics(n);
    IndexedChildren(st, n.indices);
    assert st[i] == n.children[i];
    StaticHead(st[i]);
  }

  lemma {:induction false} OnwardAgrees(n: Node, path: string, above: string)
    requires Good(n) && Lean(n) && n.kind != Param && Named(n, above) && n.path <= path && |n.path| < |path|
    ensures path[|n.path|..] != "" && Agrees(n, above, Search(n, path), Behind(n.path, Onward(Below(n), path[|n.path|..])))
    decreases n, 1
  {
    hide *;
    var rest := path[|n.path|..];
    var i := IndexOf(n.indices, rest[0]);
    IndicesAndChildren(n);
    SearchPasses(n, path);
    GoesOnIff(n, rest[0]);
    WildGoesOn(n);
    if n.wildChild {
      ThroughAgrees(n, rest, above);
    }
    if i < |n.indices| {
      NoColonIndex(n, rest[0]);
      var child := n.children[i];
      AlongChild(n, i, rest);
      NamedBelow(n, above, i);
      SearchByTable(child, rest, above + n.path);
      var o := Along(RoutesOf(child), rest, rest);
      OnwardIs(Below(n), rest, o);
      AgreesNothing(child, above + n.path, Search(child, rest), o);
      GoodHeads(n);
      AgreesBelow(n, above, child, Search(child, rest), o);
    } else {
      OnwardElse(Below(n), rest);
      NothingAgrees(n, above);
      BehindIs(n.path, Stop);
      BehindIs(n.path, Nothing);
    }
  }

  // ----- through a parameter

  lemma WildRoutes(n: Node, s: string)
    requires Good(n) && n.kind != Param && n.wildChild && s != "" && s[0] == ':'
    ensures n.children != [] && Routed(n, n.path + s) == Routed(n.children[|n.children| - 1], s)
  {
    WildIsParam(n);
    GoodHeads(n);
    HeadIsFound(n.children, |n.children| - 1);
    BelowRoutes(n, s);
    hide Good, Routed;
  }

  lemma WildBelow(n: Node)
    requires Good(n) && n.kind != Param && n.wildChild
    ensures n.children != [] && After(Below(n), n.children[|n.children| - 1].path) == Below(n.children[|n.children| - 1])
  {
    WildIsParam(n);
    var m := n.children[|n.children| - 1];
    hide Good, Routed, Below;
    forall t: string
      ensures t in After(Below(n), m.path) <==> t in Below(m)
    {
      BelowIs(n, m.path + t);
      BelowIs(m, t);
      WildRoutes(n, m.path + t);
    }
  }

  /** All routes that go on with a parameter name the same one. */
  lemma ParameterIs(n: Node)
    requires Good(n) && Lean(n) && n.kind != Param && n.wildChild
    ensures n.children != [] && GoesOn(Below(n), ':') && Parameter(Below(n)) == n.children[|n.children| - 1].path
  {
    hide Good, Lean, Routed, Below;
    WildIsParam(n);
    WildGoesOn(n);
    var m := n.children[|n.children| - 1];
    forall t: string | [':'] + t in Below(n)
      ensures WildcardName([':'] + t) == m.path
    {
      var s := [':'] + t;
      BelowIs(n, s);
      WildRoutes(n, s);
      ParamBegins(m, s);
      assert IsWild(s[0]);
      NameIsWhole(s, m.path);
    }
  }

  lemma ParamBegins(m: Node, s: string)
    requires Good(m) && m.kind == Param && Routed(m, s).Some?
    ensures SameWildcard(m.path, s)
  {
    RoutedHere(m, s);
    WildParts(m);
    OnlyChild(m);
    hide Good, Routed;
  }

  lemma ByParameterIs(n: Node, m: Node, text: string)
    requires text != "" && GoesOn(Below(n), ':') && Parameter(Below(n)) == m.path && After(Below(n), m.path) == Below(m)
    ensures var e := SegmentEnd(text);
            ByParameter(Below(n), text) ==
              if e == |text| then (if "" in Below(m) then Ends(m.path) else Stop)
              else if GoesOn(Below(m), '/') then Behind(m.path + "/", Along(After(Below(m), "/"), text[e + 1..], text[e..]))
              else Stop
  {
    hide Along, GoesOn, Below, Parameter;
  }

  lemma ParamGoesOn(m: Node)
    requires Good(m) && Lean(m) && m.kind == Param
    ensures GoesOn(Below(m), '/') <==> m.children != []
  {
    hide Good, Lean, Below;
    WildParts(m);
    if m.children != [] {
      ChildGoesOn(m, 0);
    } else if GoesOn(Below(m), '/') {
      GoesOnChild(m, '/');
    }
  }

  lemma ThroughParts(n: Node, rest: string)
    requires n.children != [] && n.children[|n.children| - 1].path != ""
    ensures var m, e := n.children[|n.children| - 1], SegmentEnd(rest);
            Through(n, rest) ==
              if e == |rest| then (if m.handler.Some? then Hit(ValueOf(m)) else GivesUp)
              else if m.children != [] then Search(m.children[0], rest[e..])
              else GivesUp
  {
    hide Search, ValueOf;
  }

  lemma ParamAgrees(m: Node, above: string)
    requires Named(m, above) && m.handler.Some?
    ensures Agrees(m, above, Hit(ValueOf(m)), Ends(m.path))
  {
    RoutedHere(m, m.path);
  }

  lemma {:induction false} ThroughAgrees(n: Node, rest: string, above: string)
    requires Good(n) && Lean(n) && n.kind != Param && Named(n, above) && n.wildChild && rest != ""
    ensures GoesOn(Below(n), ':') && Agrees(n, above, Through(n, rest), Behind(n.path, ByParameter(Below(n), rest)))
    decreases n, 0
  {
    hide *;
    WildIsParam(n);
    var last := |n.children| - 1;
    var m, e := n.children[last], SegmentEnd(rest);
    GoodHeads(n);
    LeanBelow(n, last);
    NamedBelow(n, above, last);
    ParameterIs(n);
    WildBelow(n);
    ByParameterIs(n, m, rest);
    ThroughParts(n, rest);
    BelowEnds(m);
    ParamGoesOn(m);
    NothingAgrees(n, above);
    BehindIs(n.path, Stop);
    if e == |rest| {
      if m.handler.Some? {
        ParamAgrees(m, above + n.path);
        AgreesBelow(n, above, m, Hit(ValueOf(m)), Ends(m.path));
      }
    } else if m.children != [] {
      BehindSlash(m, rest, above + n.path);
      AgreesBelow(n, above, m, Search(m.children[0], rest[e..]),
                  Behind(m.path + "/", Along(After(Below(m), "/"), rest[e + 1..], rest[e..])));
    }
  }

  lemma LeanBelow(n: Node, i: nat)
    requires Lean(n) && i < |n.children|
    ensures Lean(n.children[i])
  {
  }

  /** Behind the parameter's segment. */
  lemma {:induction false} BehindSlash(m: Node, rest: string, above: string)
    requires Good(m) && Lean(m) && m.kind == Param && Named(m, above) && m.children != [] && SegmentEnd(rest) < |rest|
    ensures var e := SegmentEnd(rest);
            Agrees(m, above, Search(m.children[0], rest[e..]),
                   Behind(m.path + "/", Along(After(Below(m), "/"), rest[e + 1..], rest[e..])))
    decreases m, 3
  {
    hide *;
    var t, child := rest[SegmentEnd(rest)..], m.children[0];
    SegmentStops(rest);
    WildParts(m);
    AlongChild(m, 0, t);
    NamedBelow(m, above, 0);
    SearchByTable(child, t, above + m.path);
    FirstOf(t);
    assert t[1..] == rest[SegmentEnd(rest) + 1..];
    var o := Along(After(Below(m), "/"), t[1..], t);
    GoodHeads(m);
    AgreesBelow(m, above, child, Search(child, t), Behind("/", o));
    BehindTwice(m.path, "/", o);
  }

  // ----- after any calls

  /** The accepted routes. */
  ghost function Table(calls: seq<Call>): iset<string>
    requires ValidCalls(calls)
  {
    iset route: string | FirstAcceptedCall(calls, route).Some?
  }

  /** The lookup as the accepted calls tell it. */
  ghost function FindIn(calls: seq<Call>, text: string): Value
    requires ValidCalls(calls)
  {
    match Along(Table(calls), text, text)
    case Ends(route) =>
      (match FirstAcceptedCall(calls, route) case Some(h) => Found(h, route) case None => Missing)
    case _ => Missing
  }

  lemma TableIsRoutes(calls: seq<Call>)
    requires ValidCalls(calls)
    ensures Table(calls) == RoutesOf(TreeAfter(calls))
  {
    hide FirstAcceptedCall, TreeAfter, Routed;
    forall s: string
      ensures s in Table(calls) <==> s in RoutesOf(TreeAfter(calls))
    {
      TreeIsTable(calls, s);
    }
  }

  lemma EmptyFinds(text: string)
    ensures Along(RoutesOf(NEW_NODE), text, text) in {Nothing, Stop}
    ensures !Lookup(NEW_NODE, text).0.Found?
  {
    forall s: string
      ensures s !in RoutesOf(NEW_NODE)
    {
      NothingRouted(s);
    }
  }

  lemma SearchOfTree(calls: seq<Call>, text: string)
    requires ValidCalls(calls) && TreeAfter(calls) != NEW_NODE
    ensures Agrees(TreeAfter(calls), "", Search(TreeAfter(calls), text), Along(Table(calls), text, text))
  {
    hide *;
    TreeIsGood(calls);
    TreeIsLean(calls);
    TreeIsNamed(calls);
    RootIsStatic(TreeAfter(calls));
    TableIsRoutes(calls);
    SearchByTable(TreeAfter(calls), text, "");
  }

  lemma RootIsStatic(root: Node)
    requires GoodRoot(root)
    ensures Good(root) && root.kind != Param
  {
  }

  lemma AgreesMeans(n: Node, r: Result, o: Outcome)
    requires Agrees(n, "", r, o)
    ensures r.Hit? <==> o.Ends?
    ensures r.Hit? ==> Routed(n, o.route).Some? && r.value == Found(Routed(n, o.route).value, o.route)
    ensures r.GivesUp? <==> o.Stop?
  {
  }

  /** Whatever the calls and their order: the lookup comes to what the search through the accepted routes comes to. */
  lemma LookupByTable(calls: seq<Call>, text: string)
    requires ValidCalls(calls)
    ensures Lookup(TreeAfter(calls), text).0 == FindIn(calls, text)
  {
    hide *;
    var root, o := TreeAfter(calls), Along(Table(calls), text, text);
    FindInIs(calls, text);
    if root == NEW_NODE {
      TableIsRoutes(calls);
      EmptyFinds(text);
    } else {
      TreeIsGood(calls);
      TreeIsNamed(calls);
      LookupIsSearch(root, text);
      SearchOfTree(calls, text);
      AgreesMeans(root, Search(root, text), o);
      if o.Ends? {
        TreeIsTable(calls, o.route);
      }
    }
  }

  lemma FindInIs(calls: seq<Call>, text: string)
    requires ValidCalls(calls)
    ensures FindIn(calls, text) ==
      match Along(Table(calls), text, text)
      case Ends(route) =>
        (match FirstAcceptedCall(calls, route) case Some(h) => Found(h, route) case None => Missing)
      case _ => Missing
  {
  }

  /** Two ways to come to the same table give the same answers, values included, whatever the trees look like. */
  lemma OrderIsNotSeen(calls: seq<Call>, other: seq<Call>, text: string)
    requires ValidCalls(calls) && ValidCalls(other)
    requires forall route :: FirstAcceptedCall(calls, route) == FirstAcceptedCall(other, route)
    ensures Lookup(TreeAfter(calls), text).0 == Lookup(TreeAfter(other), text).0
    ensures Lookup(TreeAfter(calls), text).0.Found? ==> Lookup(TreeAfter(calls), text) == Lookup(TreeAfter(other), text)
  {
    hide *;
    LookupByTable(calls, text);
    LookupByTable(other, text);
    SameTable(calls, other);
    FindInIs(calls, text);
    FindInIs(other, text);
    LookupAfterRun(calls, text);
    LookupAfterRun(other, text);
    var (value, ps) := Lookup(TreeAfter(calls), text);
    var (value', ps') := Lookup(TreeAfter(other), text);
    if value.Found? {
      AcceptedIsValid(calls, value.fullPath);
      FitsIffMatch(value.fullPath, ps, text);
      FitsIffMatch(value.fullPath, ps', text);
    }
  }

  lemma SameTable(calls: seq<Call>, other: seq<Call>)
    requires ValidCalls(calls) && ValidCalls(other)
    requires forall route :: FirstAcceptedCall(calls, route) == FirstAcceptedCall(other, route)
    ensures Table(calls) == Table(other)
  {
    hide FirstAcceptedCall;
  }

  /** A text that fits a route is missed exactly if the search through the routes stops. */
  lemma MissedIff(calls: seq<Call>, text: string, route: string, ps: seq<Binding>)
    requires ValidCalls(calls) && FirstAcceptedCall(calls, route).Some? && Fits(route, ps, text)
    ensures Lookup(TreeAfter(calls), text).0 == Missing <==> Along(Table(calls), text, text) == Stop
  {
    hide *;
    var root, o := TreeAfter(calls), Along(Table(calls), text, text);
    TreeIsTable(calls, route);
    if root == NEW_NODE {
      NothingRouted(route);
    } else {
      LookupByTable(calls, text);
      FindInIs(calls, text);
      SearchOfTree(calls, text);
      AgreesMeans(root, Search(root, text), o);
      TreeIsGood(calls);
      RootIsStatic(root);
      AcceptedIsValid(calls, route);
      FitsIffMatch(route, ps, text);
      SomeWay(root, route, text);
      NotNothing(Search(root, text), o);
      if o.Ends? {
        TreeIsTable(calls, o.route);
      }
    }
  }

  lemma NotNothing(r: Result, o: Outcome)
    requires r != NoWay && (r.Hit? <==> o.Ends?) && (r.GivesUp? <==> o.Stop?)
    ensures o.Ends? || o == Stop
  {
  }
}
