/**
 Where the lookup gives up: a text that fits a route is missed only if a route that
 competes with it, and is tried before it, leads into a dead end.
 */
module RouteDeadEnds {
  import opened RouteTree
  import opened RouteTable
  import opened RouteAdd
  import opened RouteWalk
  import opened RouteRuns
  import opened RouteNames
  import opened RouteLean
  import opened RouteFill
  import opened RouteMatch
  import opened RouteLookup
  import opened RouteSearch
  import opened RouteFinds

  // ----- dead ends of a tree

  /** `at` has been filled to what is in front of `left`. */
  ghost predicate ReadTo(text: string, at: string, left: string, ps: seq<Binding>) {
    |left| <= |text| && HasSuffix(text, left) && Fills(at, ps, text[..|text| - |left|]) && OneSegmentEach(ps)
  }

  /** The text ends in a parameter where no route does, though some go on. */
  ghost predicate NoHandler(root: Node, at: string, left: string) {
    left == "" && Open(at) && Routed(root, at) == None && exists more :: Routed(root, at + "/" + more).Some?
  }

  /** The text goes on behind a parameter where no route does. */
  ghost predicate LastParam(root: Node, at: string, left: string) {
    left != "" && left[0] == '/' && Open(at) && forall more :: Routed(root, at + "/" + more) == None
  }

  /** Only a slash is left, which no route ends with. */
  ghost predicate SlashTooMany(root: Node, at: string, left: string) {
    left == "/" && Routed(root, at + "/") == None
  }

  /** A slash more would make it a route. */
  ghost predicate SlashTooFew(root: Node, at: string, left: string) {
    Routed(root, at + left + "/").Some?
  }

  ghost predicate Dead(root: Node, text: string, at: string, left: string, ps: seq<Binding>) {
    && ReadTo(text, at, left, ps)
    && (NoHandler(root, at, left) || LastParam(root, at, left) || SlashTooMany(root, at, left) || SlashTooFew(root, at, left))
  }

  // ----- where the search gives up

  /** The routes that begin like the node's path are those of the node. */
  ghost predicate HeadSits(root: Node, above: string, n: Node) {
    forall s | s != "" && ((n == root && above == "") || (n.path != "" && s[0] == n.path[0])) ::
      Routed(root, above + s) == Routed(n, s)
  }

  /** The search stands at the node, for a text that begins like its path. */
  ghost predicate Stands(root: Node, text: string, n: Node, path: string, ps: seq<Binding>, above: string) {
    && Standing(root, text, n, path, ps, above) && Good(n) && n.kind != Param && Lean(n) && HeadSits(root, above, n)
    && ((n == root && above == "") || (n.path != "" && path != "" && path[0] == n.path[0]))
  }

  /** The place lies behind `above`, where the text goes on. */
  ghost predicate Beyond(at: string, left: string, above: string, path: string) {
    && above <= at + left && (path != "" ==> |above| < |at + left| && (at + left)[|above|] == path[0])
  }

  lemma ChildHeadSits(root: Node, above: string, n: Node, i: nat)
    requires SitsAt(root, above, n) && Heads(n.children) && i < |n.children|
    ensures HeadSits(root, above + n.path, n.children[i])
  {
    var child := n.children[i];
    HeadIsFound(n.children, i);
    forall s | s != "" && ((child == root && above + n.path == "") || (child.path != "" && s[0] == child.path[0]))
      ensures Routed(root, above + n.path + s) == Routed(child, s)
    {
      if !(child == root && above + n.path == "") {
        assert above + n.path + s == above + (n.path + s);
        assert (n.path + s)[|n.path|..] == s;
        RoutedHere(n, n.path + s);
      } else {
        assert "" + s == s;
        assert above + n.path + s == s;
      }
    }
  }

  lemma StandsIs(root: Node, text: string, n: Node, path: string, ps: seq<Binding>, above: string)
    requires Stands(root, text, n, path, ps, above)
    ensures Standing(root, text, n, path, ps, above) && SitsAt(root, above, n) && Named(n, above) && Visitable(n)
    ensures Good(n) && n.kind != Param && Lean(n) && HeadSits(root, above, n) && ReadTo(text, above, path, ps)
    ensures (n == root && above == "") || (n.path != "" && path != "" && path[0] == n.path[0])
  {
  }

  lemma BeyondHere(above: string, path: string, tail: string)
    requires path != ""
    ensures Beyond(above, path, above, path)
    ensures forall s: string | s != "" && s[0] == path[0] :: Beyond(above + s, tail, above, path)
  {
  }

  /** What lies beyond a child lies beyond its parent. */
  lemma BeyondChild(at: string, left: string, above: string, s: string, path: string)
    requires s <= path && |s| < |path| && Beyond(at, left, above + s, path[|s|..])
    ensures Beyond(at, left, above, path)
  {
    var t := at + left;
    assert above + s <= t;
    assert t[..|above|] == above;
    if s != "" {
      assert t[|above|] == (above + s)[|above|];
    } else {
      assert above + s == above && path[0..] == path;
    }
  }

  lemma SlashEnd(root: Node, text: string, n: Node, path: string, ps: seq<Binding>, above: string)
    requires Stands(root, text, n, path, ps, above) && Passes(n, path) && path[|n.path|..] == "/"
    requires IndexOf(n.indices, '/') == |n.indices| && !n.wildChild
    ensures Dead(root, text, above + n.path, "/", ps) && Beyond(above + n.path, "/", above, path)
  {
    hide *;
    StandsIs(root, text, n, path, ps, above);
    PassesIs(n, path);
    ReadNode(root, text, n, path, ps, above);
    StandingIs(root, text, n, path, ps, above);
    ReadToIs(text, above + n.path, "/", ps);
    NoSlashChild(root, n, above);
    SlashTooManyIs(root, above + n.path);
    DeadIs(root, text, above + n.path, "/", ps);
    assert n.path + "/" == path;
    PathBeyond(above, path);
    SameBeyond(above + n.path, "/", above, path);
  }

  lemma StandingIs(root: Node, text: string, n: Node, path: string, ps: seq<Binding>, above: string)
    requires Standing(root, text, n, path, ps, above)
    ensures OneSegmentEach(ps)
  {
  }

  lemma NoSlashChild(root: Node, n: Node, above: string)
    requires Good(n) && n.kind != Param && SitsAt(root, above, n) && IndexOf(n.indices, '/') == |n.indices| && !n.wildChild
    ensures Routed(root, above + n.path + "/") == None
  {
    NoneBegins(n, '/');
    RoutedHere(n, n.path + "/");
    hide Good, Routed, IndexOf;
    assert (n.path + "/")[|n.path|..] == "/";
    assert above + n.path + "/" == above + (n.path + "/");
  }

  lemma SameBeyond(at: string, left: string, above: string, path: string)
    requires at + left == above + path && Beyond(above, path, above, path)
    ensures Beyond(at, left, above, path)
  {
  }

  lemma HereEnd(root: Node, text: string, n: Node, path: string, ps: seq<Binding>, above: string)
    requires Stands(root, text, n, path, ps, above) && path == n.path == "/" && n.handler == None
    ensures Dead(root, text, above, "/", ps) && Beyond(above, "/", above, path)
  {
    StandsIs(root, text, n, path, ps, above);
    RoutedHere(n, "/");
    hide Standing, Good, Lean, HeadSits, Routed, Fills;
  }

  lemma HintEnd(root: Node, text: string, n: Node, path: string, ps: seq<Binding>, above: string)
    requires Stands(root, text, n, path, ps, above) && !Passes(n, path) && path != n.path && Hinted(n, path)
    ensures Dead(root, text, above, path, ps) && Beyond(above, path, above, path)
  {
    hide *;
    StandsIs(root, text, n, path, ps, above);
    if path == "/" {
      SlashIsNone(root, n, above);
      SlashTooManyIs(root, above);
      SlashBeyond(above);
    } else {
      HintedRoute(root, n, path, above);
      PathBeyond(above, path);
    }
    DeadIs(root, text, above, path, ps);
  }

  lemma SlashTooManyIs(root: Node, at: string)
    requires Routed(root, at + "/") == None
    ensures SlashTooMany(root, at, "/")
  {
  }

  lemma SlashBeyond(above: string)
    ensures Beyond(above, "/", above, "/")
  {
  }

  lemma PathBeyond(above: string, path: string)
    ensures Beyond(above, path, above, path)
  {
    if path != "" {
      BeyondHere(above, path, "");
    }
  }

  lemma SlashIsNone(root: Node, n: Node, above: string)
    requires HeadSits(root, above, n) && !Passes(n, "/") && n.path != "/"
    requires (n == root && above == "") || (n.path != "" && n.path[0] == '/')
    ensures Routed(root, above + "/") == None
  {
    RoutedHere(n, "/");
    hide Routed;
    assert "" + "/" == "/";
  }

  lemma HintedRoute(root: Node, n: Node, path: string, above: string)
    requires SitsAt(root, above, n) && Hinted(n, path) && path != "/"
    ensures SlashTooFew(root, above, path)
  {
    RoutedHere(n, n.path);
    hide Routed;
    assert n.path == path + "/";
    assert above + n.path == above + path + "/";
  }

  // ----- in a parameter

  /** The search stands before a segment its parameter takes. */
  ghost predicate AtParam(root: Node, text: string, n: Node, path: string, ps: seq<Binding>, above: string) {
    && Stands(root, text, n, path, ps, above) && Passes(n, path) && n.wildChild
    && n.children != [] && WildOf(n).path != "" && Good(WildOf(n)) && WildOf(n).kind == Param && Lean(WildOf(n))
    && SitsAt(root, above + n.path, WildOf(n))
  }

  lemma StandsAtParam(root: Node, text: string, n: Node, path: string, ps: seq<Binding>, above: string)
    requires Stands(root, text, n, path, ps, above) && Passes(n, path) && n.wildChild
    ensures AtParam(root, text, n, path, ps, above)
  {
    StandsIs(root, text, n, path, ps, above);
    WildIsGood(n);
    WildSits(root, n, above);
    WildLean(n);
    hide Stands, Standing, Good, Lean, SitsAt, Named, Visitable;
  }

  lemma WildLean(n: Node)
    requires Lean(n) && n.children != []
    ensures Lean(WildOf(n))
  {
  }

  lemma AtParamIs(root: Node, text: string, n: Node, path: string, ps: seq<Binding>, above: string)
    requires AtParam(root, text, n, path, ps, above)
    ensures |n.path| < |path| && n.path <= path && n.children != [] && WildOf(n).path != ""
    ensures Stands(root, text, n, path, ps, above) && Standing(root, text, n, path, ps, above)
    ensures Good(WildOf(n)) && WildOf(n).kind == Param && Lean(WildOf(n)) && SitsAt(root, above + n.path, WildOf(n))
    ensures n.wildChild
  {
    hide Standing, Good, Lean, SitsAt, HeadSits, WildOf;
  }

  lemma ParamRead(root: Node, text: string, n: Node, path: string, ps: seq<Binding>, above: string)
    requires AtParam(root, text, n, path, ps, above)
    ensures |n.path| <= |path| && n.children != [] && WildOf(n).path != ""
    ensures var rest := path[|n.path|..]; var at := above + n.path + WildOf(n).path;
            SegmentEnd(rest) <= |rest| && ReadTo(text, at, rest[SegmentEnd(rest)..], ps + [Bind(n, rest)]) && Open(at)
  {
    hide *;
    AtParamIs(root, text, n, path, ps, above);
    ReadParam(root, text, n, path, ps, above);
    ReadToIs(text, above + n.path + WildOf(n).path, path[|n.path|..][SegmentEnd(path[|n.path|..])..],
             ps + [Bind(n, path[|n.path|..])]);
  }

  lemma ReadToIs(text: string, at: string, left: string, ps: seq<Binding>)
    requires |left| <= |text| && HasSuffix(text, left) && Fills(at, ps, text[..|text| - |left|]) && OneSegmentEach(ps)
    ensures ReadTo(text, at, left, ps)
  {
  }

  lemma RoutedBelow(root: Node, above: string, m: Node, s: string)
    requires SitsAt(root, above, m) && m.path <= m.path + s
    ensures Routed(root, above + m.path + s) == Routed(m, m.path + s)
  {
    assert above + m.path + s == above + (m.path + s);
  }

  lemma ParamEnd(root: Node, text: string, n: Node, path: string, ps: seq<Binding>, above: string)
    requires AtParam(root, text, n, path, ps, above)
    requires |n.path| <= |path| && SegmentEnd(path[|n.path|..]) == |path| - |n.path|
    requires n.children != [] && WildOf(n).path != "" && WildOf(n).handler == None
    ensures Dead(root, text, above + n.path + WildOf(n).path, "", ps + [Bind(n, path[|n.path|..])])
  {
    hide *;
    AtParamIs(root, text, n, path, ps, above);
    ParamRead(root, text, n, path, ps, above);
    var m, at := WildOf(n), above + n.path + WildOf(n).path;
    var rest := path[|n.path|..];
    assert rest[|rest|..] == "";
    var more := GoesOn(root, above + n.path, m);
    RoutedBelow(root, above + n.path, m, "");
    assert at + "" == at && m.path + "" == m.path;
    RoutedAt(m);
    NoHandlerIs(root, at, more);
    DeadIs(root, text, at, "", ps + [Bind(n, rest)]);
  }

  lemma RoutedAt(m: Node)
    ensures Routed(m, m.path) == m.handler
  {
  }

  lemma DeadIs(root: Node, text: string, at: string, left: string, ps: seq<Binding>)
    requires ReadTo(text, at, left, ps)
    requires NoHandler(root, at, left) || LastParam(root, at, left) || SlashTooMany(root, at, left) || SlashTooFew(root, at, left)
    ensures Dead(root, text, at, left, ps)
  {
  }

  lemma NoHandlerIs(root: Node, at: string, more: string)
    requires Open(at) && Routed(root, at) == None && Routed(root, at + "/" + more).Some?
    ensures NoHandler(root, at, "")
  {
  }

  /** Behind a parameter without a handler some route goes on. */
  lemma GoesOn(root: Node, above: string, m: Node) returns (more: string)
    requires Good(m) && m.kind == Param && Lean(m) && m.handler == None && SitsAt(root, above, m)
    ensures Routed(root, above + m.path + "/" + more).Some?
  {
    LeanHasChild(m);
    WildParts(m);
    ChildSits(root, above, m, 0);
    hide Good, Lean, SitsAt, Routed;
    var t := SeeRoute(root, above + m.path, m.children[0]);
    more := t[1..];
    assert t[0] == '/';
    assert above + m.path + t == above + m.path + "/" + more;
  }

  lemma LeanHasChild(m: Node)
    requires Lean(m) && m.handler == None
    ensures m.children != []
  {
  }

  lemma ParamStops(root: Node, text: string, n: Node, path: string, ps: seq<Binding>, above: string)
    requires AtParam(root, text, n, path, ps, above)
    requires |n.path| <= |path| && SegmentEnd(path[|n.path|..]) < |path| - |n.path|
    requires n.children != [] && WildOf(n).path != "" && WildOf(n).children == []
    ensures var rest := path[|n.path|..];
            SegmentEnd(rest) <= |rest| && Dead(root, text, above + n.path + WildOf(n).path, rest[SegmentEnd(rest)..], ps + [Bind(n, rest)])
  {
    hide *;
    AtParamIs(root, text, n, path, ps, above);
    ParamRead(root, text, n, path, ps, above);
    var m, at := WildOf(n), above + n.path + WildOf(n).path;
    var rest := path[|n.path|..];
    SegmentStops(rest);
    forall more
      ensures Routed(root, at + "/" + more) == None
    {
      assert m.path <= m.path + ("/" + more);
      RoutedBelow(root, above + n.path, m, "/" + more);
      assert at + ("/" + more) == at + "/" + more;
      LeafRoutes(m, "/" + more);
    }
    LastParamIs(root, at, rest[SegmentEnd(rest)..]);
    DeadIs(root, text, at, rest[SegmentEnd(rest)..], ps + [Bind(n, rest)]);
  }

  lemma LeafRoutes(m: Node, s: string)
    requires m.children == [] && s != ""
    ensures Routed(m, m.path + s) == None
  {
    RoutedHere(m, m.path + s);
  }

  lemma LastParamIs(root: Node, at: string, left: string)
    requires left != "" && left[0] == '/' && Open(at) && forall more :: Routed(root, at + "/" + more) == None
    ensures LastParam(root, at, left)
  {
  }

  // ----- into children

  lemma StandsInto(root: Node, text: string, n: Node, path: string, ps: seq<Binding>, above: string, i: nat)
    requires Stands(root, text, n, path, ps, above) && Passes(n, path) && i == IndexOf(n.indices, path[|n.path|]) < |n.indices|
    ensures |n.path| <= |path| && i < |n.children|
    ensures Stands(root, text, n.children[i], path[|n.path|..], ps, above + n.path)
  {
    StandsIs(root, text, n, path, ps, above);
    IntoStatic(root, text, n, path, ps, above, i);
    IndexChild(n, i);
    GoodHeads(n);
    ChildSits(root, above, n, i);
    ChildHeadSits(root, above, n, i);
    hide Standing, Good, Lean, SitsAt, Named, Visitable, HeadSits, Heads, Routed;
  }

  lemma IndexChild(n: Node, i: nat)
    requires Visitable(n) && i < |n.indices|
    ensures i < |n.children| && n.children[i].kind != Param && n.children[i].path != "" && n.children[i].path[0] == n.indices[i]
    ensures n.indices[i] != ':'
  {
    StaticHead(n.children[i]);
  }

  lemma StandsThrough(root: Node, text: string, n: Node, path: string, ps: seq<Binding>, above: string)
    requires AtParam(root, text, n, path, ps, above)
    requires |n.path| <= |path| && n.children != [] && WildOf(n).path != "" && WildOf(n).children != []
    requires SegmentEnd(path[|n.path|..]) < |path| - |n.path|
    ensures var rest := path[|n.path|..];
            SegmentEnd(rest) <= |rest| &&
            Stands(root, text, WildOf(n).children[0], rest[SegmentEnd(rest)..], ps + [Bind(n, rest)], above + n.path + WildOf(n).path)
  {
    AtParamIs(root, text, n, path, ps, above);
    hide AtParam, Stands;
    IntoParam(root, text, n, path, ps, above);
    var m := WildOf(n);
    WildParts(m);
    GoodHeads(m);
    ChildSits(root, above + n.path, m, 0);
    ChildHeadSits(root, above + n.path, m, 0);
    SegmentStops(path[|n.path|..]);
    hide Standing, Good, Lean, SitsAt, Routed, WildOf, Bind, SegmentEnd, HeadSits;
    StandsIf(root, text, m.children[0], path[|n.path|..][SegmentEnd(path[|n.path|..])..], ps + [Bind(n, path[|n.path|..])], above + n.path + m.path);
  }

  lemma StandsIf(root: Node, text: string, n: Node, path: string, ps: seq<Binding>, above: string)
    requires Standing(root, text, n, path, ps, above) && Good(n) && n.kind != Param && Lean(n) && HeadSits(root, above, n)
    requires n.path != "" && path != "" && path[0] == n.path[0]
    ensures Stands(root, text, n, path, ps, above)
  {
  }

  // ----- the search gives up in a dead end

  lemma BeyondThrough(at: string, left: string, above: string, s: string, name: string, path: string)
    requires s != "" && s <= path && above + s + name <= at + left
    ensures Beyond(at, left, above, path)
  {
    var t := at + left;
    assert t[..|above + s + name|] == above + s + name;
    assert t[|above|] == (above + s + name)[|above|] == s[0];
    assert t[..|above|] == above;
  }

  lemma BeyondIs(at: string, left: string, above: string, path: string)
    requires Beyond(at, left, above, path)
    ensures above <= at + left && (path != "" ==> |above| < |at + left| && (at + left)[|above|] == path[0])
  {
  }

  /** What the search comes to at a node. */
  lemma SearchIs(n: Node, path: string)
    requires Search(n, path) == GivesUp && |n.indices| <= |n.children|
    ensures
      if Passes(n, path) then
        |n.path| < |path| &&
        var i := IndexOf(n.indices, path[|n.path|]);
        if i < |n.indices| then
          i < |n.children| && (Search(n.children[i], path[|n.path|..]) == GivesUp || (n.wildChild && Through(n, path[|n.path|..]) == GivesUp))
        else if n.wildChild then Through(n, path[|n.path|..]) == GivesUp
        else path[|n.path|..] == "/" && i == |n.indices|
      else if path == n.path then path == "/" && n.handler == None
      else Hinted(n, path)
  {
    hide Through;
  }

  lemma ThroughGives(n: Node, rest: string)
    requires Through(n, rest) == GivesUp && n.children != [] && WildOf(n).path != ""
    ensures if SegmentEnd(rest) == |rest| then WildOf(n).handler == None
            else if WildOf(n).children != [] then
              SegmentEnd(rest) <= |rest| && Search(WildOf(n).children[0], rest[SegmentEnd(rest)..]) == GivesUp
            else true
  {
    hide Search;
  }

  lemma {:induction false} GivesUpAt(root: Node, text: string, n: Node, path: string, ps: seq<Binding>, above: string)
    returns (at: string, left: string, bs: seq<Binding>)
    requires Stands(root, text, n, path, ps, above) && Search(n, path) == GivesUp
    ensures Dead(root, text, at, left, bs) && (n.path != "" ==> Beyond(at, left, above, path))
    decreases n, 1
  {
    hide *;
    StandsIs(root, text, n, path, ps, above);
    IndicesFit(n);
    SearchIs(n, path);
    if Passes(n, path) {
      var i, rest := IndexOf(n.indices, path[|n.path|]), path[|n.path|..];
      PassesIs(n, path);
      if i < |n.indices| && Search(n.children[i], rest) == GivesUp {
        StandsInto(root, text, n, path, ps, above, i);
        ChildHasPath(n, i);
        at, left, bs := GivesUpAt(root, text, n.children[i], rest, ps, above + n.path);
        BeyondChild(at, left, above, n.path, path);
      } else if n.wildChild {
        StandsAtParam(root, text, n, path, ps, above);
        at, left, bs := ThroughGivesUp(root, text, n, path, ps, above);
      } else {
        assert path[|n.path|] == '/';
        SlashEnd(root, text, n, path, ps, above);
        at, left, bs := above + n.path, "/", ps;
      }
    } else if path == n.path {
      HereEnd(root, text, n, path, ps, above);
      at, left, bs := above, "/", ps;
    } else {
      HintEnd(root, text, n, path, ps, above);
      at, left, bs := above, path, ps;
    }
  }

  lemma IndicesFit(n: Node)
    requires Visitable(n)
    ensures |n.indices| <= |n.children|
  {
  }

  lemma ChildHasPath(n: Node, i: nat)
    requires Visitable(n) && i < |n.indices|
    ensures i < |n.children| && n.children[i].path != ""
  {
  }

  lemma {:induction false} ThroughGivesUp(root: Node, text: string, n: Node, path: string, ps: seq<Binding>, above: string)
    returns (at: string, left: string, bs: seq<Binding>)
    requires AtParam(root, text, n, path, ps, above) && |n.path| <= |path| && Through(n, path[|n.path|..]) == GivesUp
    ensures Dead(root, text, at, left, bs)
    ensures above + n.path <= at + left && (n.path != "" ==> Beyond(at, left, above, path))
    decreases n, 0
  {
    hide *;
    AtParamIs(root, text, n, path, ps, above);
    var m, rest := n.children[|n.children| - 1], path[|n.path|..];
    WildOfIs(n);
    WildParts(m);
    ThroughGives(n, rest);
    var e := SegmentEnd(rest);
    SegmentInside(rest);
    bs := ps + [Bind(n, rest)];
    if e == |rest| {
      ParamEnd(root, text, n, path, ps, above);
      at, left := above + n.path + m.path, "";
      assert at + left == above + n.path + m.path;
    } else if m.children == [] {
      ParamStops(root, text, n, path, ps, above);
      at, left := above + n.path + m.path, rest[e..];
    } else {
      StandsThrough(root, text, n, path, ps, above);
      at, left, bs := GivesUpAt(root, text, m.children[0], rest[e..], bs, above + n.path + m.path);
      BeyondIs(at, left, above + n.path + m.path, rest[e..]);
    }
    assert above + n.path + m.path <= at + left;
    if n.path != "" {
      BeyondThrough(at, left, above, n.path, m.path, path);
    }
  }

  lemma SegmentInside(rest: string)
    ensures SegmentEnd(rest) <= |rest|
  {
  }

  // ----- a text that fits a route

  /** Up to `k` the three agree; there `r` goes on with a parameter, `q` and `d` with the same other character. */
  ghost predicate PartsAt(r: string, q: string, d: string, k: nat) {
    && k < |r| && k < |q| && k < |d| && r[..k] == q[..k] == d[..k]
    && r[k] == ':' && q[k] == d[k] != ':'
  }

  lemma PartHere(above: string, w: string, q: string, d: string, c: char)
    requires w != "" && w[0] == ':' && q != "" && q[0] == c != ':' && above <= d && |above| < |d| && d[|above|] == c
    ensures PartsAt(above + w, above + q, d, |above|)
  {
    assert (above + w)[..|above|] == above && (above + q)[..|above|] == above && d[..|above|] == above;
  }

  /** The route of a text is missed: another, tried first, leads to a dead end. */
  lemma {:induction false} LosesTo(root: Node, text: string, n: Node, path: string, ps: seq<Binding>, above: string, route: string)
    returns (at: string, left: string, bs: seq<Binding>, rival: string, k: nat)
    requires Stands(root, text, n, path, ps, above) && Search(n, path) == GivesUp
    requires Routed(n, route).Some? && Match(route, path).Some?
    ensures Dead(root, text, at, left, bs) && Routed(root, rival).Some? && PartsAt(above + route, rival, at + left, k)
    decreases n, 1
  {
    hide *;
    StandsIs(root, text, n, path, ps, above);
    var t := NodeTurns(n, route, path);
    match t
    case EndsHere =>
      EndsIs(n, route, path);
      SearchEnds(n);
      assert false;
    case GoesInto(i) =>
      GoesIntoIs(n, route, path, i);
      SomeWay(n.children[i], route[|n.path|..], path[|n.path|..]);
      SearchGoesInto(n, path, i);
      StandsInto(root, text, n, path, ps, above, i);
      at, left, bs, rival, k := LosesTo(root, text, n.children[i], path[|n.path|..], ps, above + n.path, route[|n.path|..]);
      RestOfRoute(n.path, route, above);
    case GoesWild =>
      GoesWildIs(n, route, path);
      StandsAtParam(root, text, n, path, ps, above);
      RestOfRoute(n.path, route, above);
      var i, rest := IndexOf(n.indices, path[|n.path|]), path[|n.path|..];
      var r := route[|n.path|..];
      IndicesFit(n);
      SearchIs(n, path);
      IndexIs(n.indices, path[|n.path|]);
      if i < |n.indices| && Search(n.children[i], rest) == GivesUp {
        at, left, bs, rival := StaticLoses(root, text, n, path, ps, above, i);
        k := |above + n.path|;
        BeyondIs(at, left, above + n.path, rest);
        SeeHead(rival, above + n.path, rest);
        PartHere(above + n.path, r, rival[k..], at + left, rest[0]);
        assert rival == above + n.path + rival[k..];
      } else {
        at, left, bs, rival, k := WildLosesTo(root, text, n, path, ps, above, r);
      }
  }

  lemma IndexIs(s: string, c: char)
    ensures IndexOf(s, c) < |s| ==> s[IndexOf(s, c)] == c
  {
  }

  lemma SeeHead(rival: string, above: string, rest: string)
    requires rest != "" && above <= rival && |above| < |rival| && rival[|above|] == rest[0]
    ensures rival[|above|..] != "" && rival[|above|..][0] == rest[0]
  {
  }

  /** The static child is tried first and gives up; a route leads through it. */
  lemma StaticLoses(root: Node, text: string, n: Node, path: string, ps: seq<Binding>, above: string, i: nat)
    returns (at: string, left: string, bs: seq<Binding>, rival: string)
    requires Stands(root, text, n, path, ps, above) && Passes(n, path) && i == IndexOf(n.indices, path[|n.path|]) < |n.indices|
    requires i < |n.children| && |n.path| < |path| && Search(n.children[i], path[|n.path|..]) == GivesUp
    ensures Dead(root, text, at, left, bs) && Routed(root, rival).Some? && path[|n.path|] != ':'
    ensures Beyond(at, left, above + n.path, path[|n.path|..])
    ensures above + n.path <= rival && |above + n.path| < |rival| && rival[|above + n.path|] == path[|n.path|]
  {
    hide *;
    StandsIs(root, text, n, path, ps, above);
    StandsInto(root, text, n, path, ps, above, i);
    IndexChild(n, i);
    IndexIs(n.indices, path[|n.path|]);
    at, left, bs := GivesUpAt(root, text, n.children[i], path[|n.path|..], ps, above + n.path);
    ChildSits(root, above, n, i);
    var t := SeeRoute(root, above + n.path, n.children[i]);
    rival := above + n.path + t;
    HeadOf(above + n.path, n.children[i].path, t);
  }

  lemma HeadOf(above: string, head: string, t: string)
    requires head != "" && head <= t
    ensures above <= above + t && |above| < |above + t| && (above + t)[|above|] == head[0]
  {
  }

  lemma {:induction false} WildLosesTo(root: Node, text: string, n: Node, path: string, ps: seq<Binding>, above: string, r: string)
    returns (at: string, left: string, bs: seq<Binding>, rival: string, k: nat)
    requires AtParam(root, text, n, path, ps, above) && |n.path| <= |path| && Through(n, path[|n.path|..]) == GivesUp
    requires n.children != [] && r != "" && r[0] == ':' && Routed(WildOf(n), r).Some? && Match(r, path[|n.path|..]).Some?
    ensures Dead(root, text, at, left, bs) && Routed(root, rival).Some? && PartsAt(above + n.path + r, rival, at + left, k)
    decreases n, 0
  {
    hide *;
    AtParamIs(root, text, n, path, ps, above);
    var m, rest := n.children[|n.children| - 1], path[|n.path|..];
    WildOfIs(n);
    WildTurns(m, r, rest);
    ThroughIs(n, r, rest);
    WildGoesIs(m, r, rest);
    SegmentInside(rest);
    var e := SegmentEnd(rest);
    WildGoesOn(m, r, rest);
    StandsThrough(root, text, n, path, ps, above);
    at, left, bs, rival, k :=
      LosesTo(root, text, m.children[0], rest[e..], ps + [Bind(n, rest)], above + n.path + m.path, r[|m.path|..]);
    RestOfRoute(m.path, r, above + n.path);
  }

  lemma WildGoesOn(m: Node, r: string, rest: string)
    requires WildGoes(m, r, rest)
    ensures r != m.path ==> SegmentEnd(rest) < |rest|
  {
  }

  // ----- after any calls

  predicate Accepted(calls: seq<Call>, route: string)
    requires ValidCalls(calls)
  {
    FirstAcceptedCall(calls, route).Some?
  }

  /**
   The values `ps` fill `at` to the front of the text, and with `left` still to come the
   accepted routes have a dead end there: the text ends in a parameter where none of them
   does though some go on, or goes on behind a parameter where none does, or only a slash
   is left that none has, or one more slash is what one of them has.
   */
  ghost predicate DeadEnd(calls: seq<Call>, text: string, at: string, left: string, ps: seq<Binding>)
    requires ValidCalls(calls)
  {
    && ReadTo(text, at, left, ps)
    && (|| (left == "" && Open(at) && !Accepted(calls, at) && exists more :: Accepted(calls, at + "/" + more))
        || (left != "" && left[0] == '/' && Open(at) && forall more :: !Accepted(calls, at + "/" + more))
        || (left == "/" && !Accepted(calls, at + "/"))
        || Accepted(calls, at + left + "/"))
  }

  lemma DeadIsDeadEnd(calls: seq<Call>, text: string, at: string, left: string, ps: seq<Binding>)
    requires ValidCalls(calls) && Dead(TreeAfter(calls), text, at, left, ps)
    ensures DeadEnd(calls, text, at, left, ps)
  {
    hide ReadTo, FirstAcceptedCall, TreeAfter, Routed;
    forall s
      ensures Routed(TreeAfter(calls), s).Some? <==> Accepted(calls, s)
    {
      TreeIsTable(calls, s);
    }
  }

  lemma RootStands(calls: seq<Call>, text: string)
    requires ValidCalls(calls) && Lean(TreeAfter(calls))
    ensures Stands(TreeAfter(calls), text, TreeAfter(calls), text, [], "")
  {
    TreeIsGood(calls);
    var root := TreeAfter(calls);
    Begins(root, text);
    assert forall s: string :: "" + s == s;
    hide TreeAfter, Standing, Good, Lean, MayReturn, Named;
  }

  lemma EmptyTreeRoutes(calls: seq<Call>, route: string)
    requires ValidCalls(calls) && TreeAfter(calls) == NEW_NODE
    ensures !Accepted(calls, route)
  {
    TreeIsTable(calls, route);
    NothingRouted(route);
  }

  /**
   A text that fits an accepted route and is not found: another accepted route parts from
   it where it has a parameter, is tried first, and leads into a dead end.
   */
  lemma MissedMeans(calls: seq<Call>, text: string, route: string, ps: seq<Binding>)
    returns (at: string, left: string, bs: seq<Binding>, rival: string, k: nat)
    requires ValidCalls(calls) && Accepted(calls, route) && Fits(route, ps, text)
    requires !Lookup(TreeAfter(calls), text).0.Found?
    ensures DeadEnd(calls, text, at, left, bs) && Accepted(calls, rival) && PartsAt(route, rival, at + left, k)
  {
    hide *;
    var root := TreeAfter(calls);
    TreeIsGood(calls);
    TreeIsLean(calls);
    IsAccepted(calls, route);
    if root == NEW_NODE {
      EmptyTreeRoutes(calls, route);
    }
    TreeIsNamed(calls);
    LookupAfterRun(calls, text);
    LookupIsSearch(root, text);
    TreeIsTable(calls, route);
    AcceptedIsValid(calls, route);
    FitsIffMatch(route, ps, text);
    SomeWay(root, route, text);
    HitIsFound(root, text);
    RootStands(calls, text);
    at, left, bs, rival, k := LosesTo(root, text, root, text, [], "", route);
    assert "" + route == route;
    DeadIsDeadEnd(calls, text, at, left, bs);
    TreeIsTable(calls, rival);
    IsAccepted(calls, rival);
  }

  lemma IsAccepted(calls: seq<Call>, route: string)
    requires ValidCalls(calls)
    ensures Accepted(calls, route) <==> FirstAcceptedCall(calls, route).Some?
  {
  }

  lemma {:induction false} HitIsFound(n: Node, path: string)
    ensures Search(n, path).Hit? ==> Search(n, path).value.Found?
    decreases n, 1
  {
    if Passes(n, path) {
      var rest := path[|n.path|..];
      var i := IndexOf(n.indices, rest[0]);
      if i < |n.indices| && i < |n.children| {
        HitIsFound(n.children[i], rest);
      }
      ThroughIsFound(n, rest);
      hide Through;
    }
  }

  lemma {:induction false} ThroughIsFound(n: Node, rest: string)
    ensures Through(n, rest).Hit? ==> Through(n, rest).value.Found?
    decreases n, 0
  {
    if n.children != [] && WildOf(n).children != [] && SegmentEnd(rest) < |rest| {
      HitIsFound(n.children[|n.children| - 1].children[0], rest[SegmentEnd(rest)..]);
    }
    hide Search;
  }

  /** Without a dead end for the text, it is found exactly if it fits a route. */
  lemma FoundUnlessDeadEnd(calls: seq<Call>, text: string)
    requires ValidCalls(calls) && forall at, left, bs :: !DeadEnd(calls, text, at, left, bs)
    ensures Lookup(TreeAfter(calls), text).0.Found? <==>
      exists route, ps :: FirstAcceptedCall(calls, route).Some? && Fits(route, ps, text)
  {
    hide *;
    var (value, qs) := Lookup(TreeAfter(calls), text);
    LookupAfterRun(calls, text);
    if exists route, ps :: FirstAcceptedCall(calls, route).Some? && Fits(route, ps, text) {
      var route, ps :| FirstAcceptedCall(calls, route).Some? && Fits(route, ps, text);
      IsAccepted(calls, route);
      if !value.Found? {
        var at, left, bs, rival, k := MissedMeans(calls, text, route, ps);
      }
    }
  }
}
