/**
 Adding a route extends the table by that route and keeps the tree in shape.
 */
module RouteAdd {
  import opened RouteTree
  import opened RouteTable

  /** The table has the one route. */
  ghost predicate OnlyRoute(n: Node, route: string, h: Handler) {
    forall q :: Routed(n, q) == if q == route then Some(h) else None
  }

  /** A node nothing has been put in. */
  predicate Empty(n: Node) {
    n.path == "" && n.children == [] && n.indices == "" && !n.wildChild && n.handler == None && n.kind != Param
  }

  /** The parameter node for the wildcard `path` begins with, with the rest of the route below it. */
  function NewParam(path: string, full: string, h: Handler): (Node, bool)
    requires path != "" && IsWild(path[0])
  {
    var name := WildcardName(path);
    var param := NEW_NODE.(path := name, kind := Param, priority := 1, fullPath := full);
    var rest := path[|name|..];
    if rest == "" then (param.(handler := Some(h)), true)
    else
      var (sub, ok) := InsertChild(NEW_NODE.(priority := 1, fullPath := full), rest, full, h);
      (AddChild(param, sub), ok)
  }

  /** `insert_child` on a route with a wildcard hangs a parameter node below the part before it. */
  lemma InsertHangsParam(n: Node, path: string, full: string, h: Handler)
    requires ValidPattern(path) && FirstWild(path) < |path|
    ensures var i := FirstWild(path);
            var (param, ok) := NewParam(path[i..], full, h);
            InsertChild(n, path, full, h) ==
              (AddChild(if i > 0 then n.(path := path[..i]) else n, param).(wildChild := true), ok)
  {
    hide ValidPattern, ValidWildcard, WildcardName, FirstWild;
    UnfoldPattern(path);
    var i := FirstWild(path);
    var name := WildcardName(path[i..]);
    assert path[i..][|name|..] == path[i + |name|..];
  }

  /** A route without wildcards is one node. */
  lemma InsertStatic(n: Node, path: string, full: string, h: Handler)
    requires Empty(n) && FirstWild(path) == |path|
    ensures var (m, ok) := InsertChild(n, path, full, h);
            ok && Good(m) && OnlyRoute(m, path, h) && !HasWild(m.path)
  {
    var (m, ok) := InsertChild(n, path, full, h);
    assert Statics(m) == [];
    forall q
      ensures Routed(m, q) == if q == path then Some(h) else None
    {
      RoutedHere(m, q);
    }
  }

  /** A node with one parameter child. */
  lemma HangParam(n: Node, param: Node, rest: string, h: Handler)
    requires n.children == [] && n.indices == "" && !n.wildChild && n.handler == None && n.kind != Param && !HasWild(n.path)
    requires Good(param) && param.kind == Param && rest != "" && rest[0] == ':' && OnlyRoute(param, rest, h)
    ensures var m := AddChild(n, param).(wildChild := true);
            Good(m) && OnlyRoute(m, n.path + rest, h)
  {
    var m := AddChild(n, param).(wildChild := true);
    assert Statics(m) == [] && m.children == [param];
    WildHead(param);
    assert Good(m);
    hide Good;
    assert Heads(m.children);
    NewChildExtends([], m.children, param, rest, h);
    ChildrenExtend(n, m, rest, h, true);
    forall q
      ensures Routed(n, q) == None
    {
      RoutedHere(n, q);
    }
  }

  /** `insert_child` into an empty node makes the tree of the one route. */
  lemma {:induction false} InsertFresh(n: Node, path: string, full: string, h: Handler)
    requires Empty(n) && path != "" && ValidPattern(path)
    ensures var (m, ok) := InsertChild(n, path, full, h);
            && ok && Good(m) && m.kind == n.kind && m.priority == n.priority && OnlyRoute(m, path, h)
            && !HasWild(m.path) && (!IsWild(path[0]) ==> m.path != "" && m.path[0] == path[0])
    decreases |path|, 1
  {
    hide ValidPattern, FirstWild, InsertChild, Good, OnlyRoute, NewParam;
    var i := FirstWild(path);
    if i == |path| {
      InsertStatic(n, path, full, h);
      InsertedPath(n, path, full, h);
    } else {
      InsertHangsParam(n, path, full, h);
      PatternTail(path, i);
      ParamFresh(path[i..], full, h);
      var head := if i > 0 then n.(path := path[..i]) else n;
      assert path[..i] + path[i..] == path;
      HangParam(head, NewParam(path[i..], full, h).0, path[i..], h);
    }
  }

  lemma InsertedPath(n: Node, path: string, full: string, h: Handler)
    requires FirstWild(path) == |path|
    ensures InsertChild(n, path, full, h) == (n.(path := path, handler := Some(h), fullPath := full), true)
  {
  }

  /** The parameter node is the tree of the rest of the route. */
  lemma {:induction false} ParamFresh(path: string, full: string, h: Handler)
    requires path != "" && IsWild(path[0]) && ValidPattern(path)
    ensures path[0] == ':'
    ensures var (m, ok) := NewParam(path, full, h);
            && ok && Good(m) && m.kind == Param && OnlyRoute(m, path, h)
    decreases |path|, 0
  {
    var name := WildcardName(path);
    PatternAfterName(path, name);
    NameIsParam(path);
    hide ValidPattern, WildcardName, InsertChild, ValidWildcard, FirstWild;
    var (m, ok) := NewParam(path, full, h);
    var rest := path[|name|..];
    if rest == "" {
      assert name == path;
      ParamAlone(m, h);
    } else {
      InsertFresh(NEW_NODE.(priority := 1, fullPath := full), rest, full, h);
      assert path == name + rest;
      hide Good, OnlyRoute;
      ParamAbove(NEW_NODE.(path := name, kind := Param, priority := 1, fullPath := full), m.children[0], rest, h);
    }
  }

  lemma NameIsParam(path: string)
    requires path != "" && IsWild(path[0]) && ValidWildcard(WildcardName(path))
    ensures path[0] == ':'
    ensures GoodParam(NEW_NODE.(path := WildcardName(path), kind := Param))
  {
  }

  lemma ParamAlone(m: Node, h: Handler)
    requires m.kind == Param && ValidWildcard(m.path) && '/' !in m.path && m.children == [] && m.indices == ""
    requires !m.wildChild && m.handler == Some(h)
    ensures Good(m) && OnlyRoute(m, m.path, h)
  {
    forall q
      ensures Routed(m, q) == if q == m.path then Some(h) else None
    {
      RoutedHere(m, q);
    }
  }

  lemma ParamWithChild(param: Node, sub: Node)
    requires param.children == [] && GoodParam(param) && param.kind == Param
    requires Good(sub) && IsStatic(sub) && sub.path[0] == '/'
    ensures Good(AddChild(param, sub)) && AddChild(param, sub).children == [sub] && Heads([sub])
    ensures AddChild(param, sub).path == param.path && AddChild(param, sub).handler == param.handler
  {
  }

  lemma ParamAbove(param: Node, sub: Node, rest: string, h: Handler)
    requires param.children == [] && param.handler == None && GoodParam(param) && param.kind == Param
    requires Good(sub) && IsStatic(sub) && rest != "" && rest[0] == '/' == sub.path[0] && OnlyRoute(sub, rest, h)
    ensures var m := AddChild(param, sub); Good(m) && OnlyRoute(m, param.path + rest, h)
  {
    var m := AddChild(param, sub);
    ParamWithChild(param, sub);
    hide Good, GoodParam, IsStatic;
    NewChildExtends([], m.children, sub, rest, h);
    ChildrenExtend(param, m, rest, h, true);
    forall q
      ensures Routed(param, q) == None
    {
      RoutedHere(param, q);
    }
  }

  // ----- growing a node by a child

  /** A wildcard child hung below a node that has none. */
  lemma GrowWild(n: Node, rest: string, full: string, h: Handler)
    requires Good(n) && n.kind != Param && !n.wildChild && rest != "" && rest[0] == ':' && ValidPattern(rest)
    requires |n.indices| <= |n.children|
    ensures var (m, ok) := Grow(n, rest, full, h);
            ok && Good(m) && m.path == n.path && m.kind == n.kind && m.priority == n.priority
            && Extends(n, m, n.path + rest, h, true)
  {
    FrontIsWild(rest);
    InsertHangsParam(n, rest, full, h);
    assert rest[0..] == rest;
    ParamFresh(rest, full, h);
    hide ValidPattern, FirstWild, InsertChild, NewParam, OnlyRoute;
    HangWild(n, NewParam(rest, full, h).0, rest, h);
  }

  lemma HangWild(n: Node, param: Node, rest: string, h: Handler)
    requires Good(n) && n.kind != Param && !n.wildChild && rest != "" && rest[0] == ':'
    requires Good(param) && param.kind == Param && OnlyRoute(param, rest, h)
    ensures var m := AddChild(n, param).(wildChild := true);
            Good(m) && Extends(n, m, n.path + rest, h, true)
  {
    var m := AddChild(n, param).(wildChild := true);
    var cs, ds := n.children, m.children;
    assert ds == cs + [param];
    assert Statics(m) == Statics(n);
    UnfoldGood(n);
    UnfoldGood(m);
    hide Good, Indexed;
    GoodHeads(n);
    GoodHeads(m);
    WildHead(param);
    forall i | 0 <= i < |cs|
      ensures cs[i].path[0] != ':' && cs[i] in ds
    {
      assert ds[i] == cs[i] && ds[|cs|] == param;
    }
    NoChild(cs, ':');
    assert ds[|cs|] == param;
    NewChildExtends(cs, ds, param, rest, h);
    ChildrenExtend(n, m, rest, h, true);
  }

  function InsertAt<T>(s: seq<T>, k: nat, x: T): (r: seq<T>)
    requires k <= |s|
    ensures |r| == |s| + 1
  {
    s[..k] + [x] + s[k..]
  }

  lemma InsertedAt<T>(s: seq<T>, k: nat, x: T, i: nat)
    requires k <= |s| && i <= |s|
    ensures InsertAt(s, k, x)[i] == if i < k then s[i] else if i == k then x else s[i - 1]
  {
  }

  lemma InsertedElements<T>(s: seq<T>, k: nat, x: T)
    requires k <= |s|
    ensures x in InsertAt(s, k, x)
    ensures forall y | y in s :: y in InsertAt(s, k, x)
    ensures forall y | y in InsertAt(s, k, x) :: y == x || y in s
  {
    var r := InsertAt(s, k, x);
    assert r[k] == x;
    forall y | y in s
      ensures y in r
    {
      var i :| 0 <= i < |s| && s[i] == y;
      assert r[if i < k then i else i + 1] == y;
    }
  }

  /** A new child with a low priority takes its place among the children. */
  lemma IndexedInserted(cs: seq<Node>, indices: string, k: nat, child: Node)
    requires Indexed(cs, indices) && k <= |cs| && IsStatic(child) && child.path[0] !in indices
    requires forall i | 0 <= i < k :: cs[i].priority >= child.priority
    requires forall i | k <= i < |cs| :: cs[i].priority <= child.priority
    ensures Indexed(InsertAt(cs, k, child), InsertAt(indices, k, child.path[0]))
  {
    var r, s := InsertAt(cs, k, child), InsertAt(indices, k, child.path[0]);
    hide InsertAt, HasWild;
    forall i | 0 <= i < |r|
      ensures IsStatic(r[i]) && r[i].path[0] == s[i]
    {
      InsertedAt(cs, k, child, i);
      InsertedAt(indices, k, child.path[0], i);
    }
    forall i, j | 0 <= i < j < |r|
      ensures r[i].priority >= r[j].priority && s[i] != s[j]
    {
      InsertedAt(cs, k, child, i);
      InsertedAt(indices, k, child.path[0], i);
      InsertedAt(cs, k, child, j);
      InsertedAt(indices, k, child.path[0], j);
    }
  }

  /** Where a new child among `cs` goes. */
  function NewPlace(cs: seq<Node>): (k: nat)
    ensures k <= |cs|
  {
    NewPosition(cs, |cs|, 1)
  }

  lemma NewPlaceIsSorted(cs: seq<Node>)
    requires Sorted(cs)
    ensures var k := NewPlace(cs);
            && (forall i | 0 <= i < k :: cs[i].priority >= 1)
            && (forall i | k <= i < |cs| :: cs[i].priority <= 1)
  {
  }

  /** What `Grow` makes when the route goes on with an ordinary character. */
  function Grown(n: Node, child: Node, k: nat): Node
    requires n.wildChild ==> n.children != []
    requires k <= |Statics(n)| && k <= |n.indices| && child.path != ""
  {
    n.(children := InsertAt(Statics(n), k, child) + Tail(n),
       indices := InsertAt(n.indices, k, child.path[0]))
  }

  lemma MoveLast<T>(s: seq<T>, x: T, k: nat)
    requires k <= |s|
    ensures MoveForward(s + [x], |s|, k) == InsertAt(s, k, x)
  {
    assert (s + [x])[..k] == s[..k] && (s + [x])[k..|s|] == s[k..];
  }

  lemma MoveLastButOne<T>(s: seq<T>, x: T, y: T, k: nat)
    requires k <= |s|
    ensures MoveForward(s + [x, y], |s|, k) == InsertAt(s, k, x) + [y]
  {
    var t := s + [x, y];
    assert t[..k] == s[..k] && t[k..|s|] == s[k..] && t[|s| + 1..] == [y];
  }

  function Tail(n: Node): seq<Node>
    requires n.wildChild ==> n.children != []
  {
    if n.wildChild then [n.children[|n.children| - 1]] else []
  }

  /** The new node, with its first priority, moves to its place. */
  lemma NewNodeMoves(n: Node, c: char, full: string)
    requires n.wildChild ==> n.children != []
    requires |Statics(n)| == |n.indices|
    ensures var newNode := NEW_NODE.(fullPath := full, priority := 1);
            var k := NewPlace(Statics(n));
            var m := AddChild(n.(indices := n.indices + [c]), NEW_NODE.(fullPath := full));
            && |m.children| == |n.children| + 1
            && IncrementChildPrio(m, |n.indices|) ==
                 (n.(children := InsertAt(Statics(n), k, newNode) + Tail(n), indices := InsertAt(n.indices, k, c)), k)
  {
    hide NewPosition, MoveForward, InsertAt;
    var newNode, st := NEW_NODE.(fullPath := full, priority := 1), Statics(n);
    var m := AddChild(n.(indices := n.indices + [c]), NEW_NODE.(fullPath := full));
    var pos := |n.indices|;
    var cs := m.children[pos := Raise(m.children[pos])];
    var k := NewPlace(st);
    MoveLast(n.indices, c, k);
    if n.wildChild {
      var last := n.children[|n.children| - 1];
      assert cs == st + [newNode, last];
      MoveLastButOne(st, newNode, last, k);
    } else {
      assert cs == st + [newNode];
      MoveLast(st, newNode, k);
      assert InsertAt(st, k, newNode) + [] == InsertAt(st, k, newNode);
    }
    assert cs[..pos] == st[..pos];
    SamePosition(cs, st, pos, 1);
  }

  lemma ReplaceInserted<T>(s: seq<T>, tail: seq<T>, k: nat, x: T, y: T)
    requires k <= |s|
    ensures (InsertAt(s, k, x) + tail)[k := y] == InsertAt(s, k, y) + tail
    ensures (InsertAt(s, k, x) + tail)[k] == x
  {
  }

  /** `Grow` puts the new child in its place. */
  lemma GrowForm(n: Node, rest: string, full: string, h: Handler)
    requires rest != "" && rest[0] != ':' && |n.indices| <= |n.children|
    requires n.wildChild ==> n.children != []
    requires |Statics(n)| == |n.indices|
    ensures var newNode := NEW_NODE.(fullPath := full, priority := 1);
            var k := NewPlace(Statics(n));
            var (child, ok) := InsertChild(newNode, rest, full, h);
            child.path != "" && child.path[0] == rest[0] ==> Grow(n, rest, full, h) == (Grown(n, child, k), ok)
  {
    hide InsertChild, NewPosition, NewPlace, InsertAt, IncrementChildPrio, AddChild, MoveForward;
    var newNode := NEW_NODE.(fullPath := full, priority := 1);
    var k := NewPlace(Statics(n));
    var (child, ok) := InsertChild(newNode, rest, full, h);
    NewNodeMoves(n, rest[0], full);
    AddedIndices(n, rest[0], full);
    ReplaceInserted(Statics(n), Tail(n), k, newNode, child);
  }

  lemma AddedIndices(n: Node, c: char, full: string)
    ensures AddChild(n.(indices := n.indices + [c]), NEW_NODE.(fullPath := full)).indices == n.indices + [c]
  {
  }

  /** The only wildcards of a valid route are parameters. */
  lemma WildIsColon(rest: string)
    requires ValidPattern(rest) && rest != ""
    ensures IsWild(rest[0]) ==> rest[0] == ':'
  {
    if IsWild(rest[0]) {
      FrontIsWild(rest);
      UnfoldPattern(rest);
      assert rest[0..] == rest;
    }
  }

  lemma GrownIndexed(n: Node, child: Node)
    requires Good(n) && IsStatic(child) && child.priority == 1 && n.kind != Param && child.path[0] !in n.indices
    ensures |n.indices| == |Statics(n)| && GoodHere(Grown(n, child, NewPlace(Statics(n))))
  {
    var st, k := Statics(n), NewPlace(Statics(n));
    var m := Grown(n, child, k);
    hide Good, HasWild, IsStatic, InsertAt, NewPlace;
    UnfoldGood(n);
    NewPlaceIsSorted(st);
    IndexedInserted(st, n.indices, k, child);
    assert Statics(m) == InsertAt(st, k, child);
  }

  lemma GrownChildren(n: Node, child: Node, k: nat)
    requires Good(n) && k <= |Statics(n)| && k <= |n.indices| && child.path != "" && (n.wildChild ==> n.children != [])
    ensures child in Grown(n, child, k).children
    ensures forall c | c in n.children :: c in Grown(n, child, k).children
    ensures forall c | c in Grown(n, child, k).children :: c == child || c in n.children
  {
    var st := Statics(n);
    ConcatElements(InsertAt(st, k, child), Tail(n));
    ConcatElements(st, Tail(n));
    InsertedElements(st, k, child);
    StaticsAndTail(n);
    hide Good, InsertAt, Tail, Statics;
  }

  lemma StaticsAndTail(n: Node)
    requires n.wildChild ==> n.children != []
    ensures n.children == Statics(n) + Tail(n)
  {
  }

  lemma ConcatElements<T>(a: seq<T>, b: seq<T>)
    ensures forall y :: y in a + b <==> y in a || y in b
  {
  }

  lemma GrownGood(n: Node, child: Node)
    requires Good(n) && Good(child) && IsStatic(child) && child.priority == 1 && n.kind != Param && child.path[0] !in n.indices
    ensures |n.indices| == |Statics(n)| && Good(Grown(n, child, NewPlace(Statics(n))))
  {
    var m := Grown(n, child, NewPlace(Statics(n)));
    GrownIndexed(n, child);
    GrownChildren(n, child, NewPlace(Statics(n)));
    hide Good, HasWild, IsStatic, Grown, GoodHere, NewPlace;
    UnfoldGood(n);
    UnfoldGood(m);
    forall i | 0 <= i < |m.children|
      ensures Good(m.children[i])
    {
      assert m.children[i] in m.children;
    }
  }

  lemma GrownParam(n: Node, child: Node)
    requires Good(n) && Good(child) && IsStatic(child) && n.kind == Param && n.children == [] && child.path[0] == '/'
    ensures Good(Grown(n, child, 0))
  {
    var m := Grown(n, child, 0);
    assert m.children == [child] && m.indices == "/";
  }

  /** A child for an ordinary character that no child begins with. */
  lemma GrowStatic(n: Node, rest: string, full: string, h: Handler)
    requires Good(n) && rest != "" && rest[0] != ':' && ValidPattern(rest)
    requires if n.kind == Param then n.children == [] && rest[0] == '/' else IndexOf(n.indices, rest[0]) == |n.indices|
    requires |n.indices| <= |n.children|
    ensures var (m, ok) := Grow(n, rest, full, h);
            ok && Good(m) && m.path == n.path && m.kind == n.kind && m.priority == n.priority
            && Extends(n, m, n.path + rest, h, true)
  {
    var newNode := NEW_NODE.(fullPath := full, priority := 1);
    WildIsColon(rest);
    InsertFresh(newNode, rest, full, h);
    var (child, ok) := InsertChild(newNode, rest, full, h);
    StaticsCounted(n);
    GrowForm(n, rest, full, h);
    hide InsertChild, Good, NewPlace, ValidPattern, Grow, OnlyRoute;
    var k := NewPlace(Statics(n));
    if n.kind == Param {
      GrownParam(n, child);
    } else {
      GrownGood(n, child);
    }
    GrownExtends(n, child, k, rest, h);
  }

  lemma StaticsCounted(n: Node)
    requires Good(n) && (n.kind == Param ==> n.children == [])
    ensures (n.wildChild ==> n.children != []) && |Statics(n)| == |n.indices|
  {
  }

  lemma GrownExtends(n: Node, child: Node, k: nat, rest: string, h: Handler)
    requires Good(n) && (n.wildChild ==> n.children != []) && k <= |Statics(n)| && k <= |n.indices|
    requires rest != "" && rest[0] != ':' && IsStatic(child) && child.path[0] == rest[0] && OnlyRoute(child, rest, h)
    requires if n.kind == Param then n.children == [] else IndexOf(n.indices, rest[0]) == |n.indices|
    requires Good(Grown(n, child, k))
    ensures Extends(n, Grown(n, child, k), n.path + rest, h, true)
  {
    var m := Grown(n, child, k);
    GrownChildren(n, child, k);
    NoneBegins(n, rest[0]);
    GoodHeads(n);
    GoodHeads(m);
    GrownKeeps(n, child, k);
    hide Good, Grown, HasWild, Heads, ChildFor, Extends, ExtendsIn;
    NewChildExtends(n.children, m.children, child, rest, h);
    ChildrenExtend(n, m, rest, h, true);
  }

  lemma GrownKeeps(n: Node, child: Node, k: nat)
    requires (n.wildChild ==> n.children != []) && k <= |Statics(n)| && k <= |n.indices| && child.path != ""
    ensures Grown(n, child, k).path == n.path && Grown(n, child, k).handler == n.handler
  {
  }

  /** A character not in the index string begins no child. */
  lemma NoneBegins(n: Node, c: char)
    requires Good(n) && c != ':'
    requires if n.kind == Param then n.children == [] else IndexOf(n.indices, c) == |n.indices|
    ensures ChildFor(n.children, c) == |n.children|
  {
    GoodHeads(n);
    hide Sorted, Distinct, HasWild;
    forall i | 0 <= i < |n.children|
      ensures n.children[i].path[0] != c
    {
      if i < |n.indices| {
        assert Statics(n)[i] == n.children[i];
      } else {
        WildHead(n.children[i]);
      }
    }
    NoChild(n.children, c);
  }
}
