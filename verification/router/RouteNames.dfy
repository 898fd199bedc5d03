/**
 A node that has a handler knows the whole route it was registered under.
 */
module RouteNames {
  import opened RouteTree
  import opened RouteTable
  import opened RouteAdd
  import opened RouteWalk
  import opened RouteRuns

  /** Below the text `above`, every node with a handler is marked with its route. */
  predicate Named(n: Node, above: string) {
    && (n.handler.Some? ==> n.fullPath == above + n.path)
    && forall i | 0 <= i < |n.children| :: Named(n.children[i], above + n.path)
  }

  predicate AllNamed(cs: seq<Node>, above: string) {
    forall c | c in cs :: Named(c, above)
  }

  lemma NamedHere(n: Node, above: string)
    ensures Named(n, above) <==>
      (n.handler.Some? ==> n.fullPath == above + n.path) && AllNamed(n.children, above + n.path)
  {
    assert forall i | 0 <= i < |n.children| :: n.children[i] in n.children;
  }

  lemma RaiseNamed(n: Node, above: string)
    ensures Named(Raise(n), above) <==> Named(n, above)
  {
    NamedHere(n, above);
    NamedHere(Raise(n), above);
  }

  lemma SplitNamed(n: Node, i: nat, up: string, above: string)
    requires Named(n, above) && i < |n.path| && n.priority > 0
    ensures Named(Split(n, i, up), above)
  {
    var m := Split(n, i, up);
    var low := m.children[0];
    hide Named;
    NamedHere(n, above);
    assert above + n.path[..i] + n.path[i..] == above + n.path;
    NamedHere(low, above + n.path[..i]);
    NamedHere(m, above);
  }

  lemma PlaceNamed(n: Node, full: string, h: Handler, above: string)
    requires Named(n, above) && full == above + n.path
    ensures Named(Place(n, full, h).0, above)
  {
    hide Named;
    NamedHere(n, above);
    NamedHere(Place(n, full, h).0, above);
  }

  lemma {:induction false} InsertNamed(n: Node, path: string, full: string, h: Handler, above: string)
    requires n.children == [] && n.handler == None && !n.wildChild && n.path == "" && ValidPattern(path) && full == above + path
    ensures Named(InsertChild(n, path, full, h).0, above)
    decreases |path|, 1
  {
    hide *;
    var i := FirstWild(path);
    if i == |path| {
      InsertedPath(n, path, full, h);
      NoneNamed(above + path);
      NamedHere(InsertChild(n, path, full, h).0, above);
    } else {
      InsertHangsParam(n, path, full, h);
      PatternTail(path, i);
      assert full == above + path[..i] + path[i..];
      ParamNamed(path[i..], full, h, above + path[..i]);
      var head := if i > 0 then n.(path := path[..i]) else n;
      AddedOnly(head, NewParam(path[i..], full, h).0);
      assert head.path == path[..i];
      NamedHere(InsertChild(n, path, full, h).0, above);
    }
  }

  lemma AddedOnly(n: Node, child: Node)
    requires n.children == [] && !n.wildChild
    ensures AddChild(n, child) == n.(children := [child])
    ensures forall above :: Named(child, above) ==> AllNamed([child], above)
  {
  }

  lemma {:induction false} ParamNamed(path: string, full: string, h: Handler, above: string)
    requires path != "" && IsWild(path[0]) && ValidPattern(path) && full == above + path
    ensures Named(NewParam(path, full, h).0, above)
    decreases |path|, 0
  {
    hide ValidPattern, WildcardName, InsertChild, Named, AllNamed, AddChild;
    var name := WildcardName(path);
    PatternAfterName(path, name);
    var param := NEW_NODE.(path := name, kind := Param, priority := 1, fullPath := full);
    var rest := path[|name|..];
    var m := NewParam(path, full, h).0;
    NamedHere(m, above);
    if rest == "" {
      assert name == path;
      NoneNamed(above + name);
    } else {
      var sub := NEW_NODE.(priority := 1, fullPath := full);
      assert full == above + name + rest;
      InsertNamed(sub, rest, full, h, above + name);
      AddedOnly(param, InsertChild(sub, rest, full, h).0);
    }
  }

  lemma NoneNamed(above: string)
    ensures AllNamed([], above)
  {
  }

  lemma NamedWith(cs: seq<Node>, ds: seq<Node>, child: Node, above: string)
    requires AllNamed(cs, above) && Named(child, above)
    requires forall c | c in ds :: c == child || c in cs
    ensures AllNamed(ds, above)
  {
  }

  lemma GrowNamed(n: Node, rest: string, full: string, h: Handler, above: string)
    requires Good(n) && Named(n, above) && rest != "" && ValidPattern(rest) && full == above + n.path + rest
    requires if n.kind == Param then n.children == [] && rest[0] == '/'
             else (rest[0] == ':' ==> !n.wildChild) && IndexOf(n.indices, rest[0]) == |n.indices|
    requires |n.indices| <= |n.children|
    ensures Named(Grow(n, rest, full, h).0, above)
  {
    hide *;
    if rest[0] == ':' {
      GrowWildNamed(n, rest, full, h, above);
    } else {
      GrowStaticNamed(n, rest, full, h, above);
    }
  }

  lemma GrowWildNamed(n: Node, rest: string, full: string, h: Handler, above: string)
    requires Named(n, above) && !n.wildChild && rest != "" && rest[0] == ':' && ValidPattern(rest)
    requires full == above + n.path + rest && |n.indices| <= |n.children|
    ensures Named(Grow(n, rest, full, h).0, above)
  {
    hide Named, ValidPattern, NewParam, FirstWild, InsertChild, AllNamed;
    FrontIsWild(rest);
    InsertHangsParam(n, rest, full, h);
    assert rest[0..] == rest;
    var param := NewParam(rest, full, h).0;
    ParamNamed(rest, full, h, above + n.path);
    NamedHere(n, above);
    var m := Grow(n, rest, full, h).0;
    assert m.children == n.children + [param];
    NamedWith(n.children, m.children, param, above + n.path);
    NamedHere(m, above);
  }

  lemma GrowStaticNamed(n: Node, rest: string, full: string, h: Handler, above: string)
    requires Good(n) && Named(n, above) && rest != "" && rest[0] != ':' && ValidPattern(rest)
    requires full == above + n.path + rest && |n.indices| <= |n.children|
    requires n.kind == Param ==> n.children == []
    ensures Named(Grow(n, rest, full, h).0, above)
  {
    hide *;
    var newNode := NEW_NODE.(fullPath := full, priority := 1);
    WildIsColon(rest);
    NewNodeIsEmpty(full);
    InsertFresh(newNode, rest, full, h);
    InsertNamed(newNode, rest, full, h, above + n.path);
    StaticsCounted(n);
    GrowForm(n, rest, full, h);
    var child := InsertChild(newNode, rest, full, h).0;
    var k := NewPlace(Statics(n));
    NamedHere(n, above);
    GrownChildren(n, child, k);
    NamedWith(n.children, Grown(n, child, k).children, child, above + n.path);
    GrownKeepsAll(n, child, k);
    NamedHere(Grown(n, child, k), above);
  }

  lemma NewNodeIsEmpty(full: string)
    ensures Empty(NEW_NODE.(fullPath := full, priority := 1))
    ensures IsWild(':') && IsWild('*')
  {
  }

  lemma GrownKeepsAll(n: Node, child: Node, k: nat)
    requires (n.wildChild ==> n.children != []) && k <= |Statics(n)| && k <= |n.indices| && child.path != ""
    ensures var m := Grown(n, child, k); m.path == n.path && m.handler == n.handler && m.fullPath == n.fullPath
  {
  }

  /** The walk marks the route it places with its text. */
  lemma {:induction false} WalkNamed(n: Node, path: string, full: string, at: nat, h: Handler, above: string)
    requires MayWalk(n, path) && at + |path| <= |full| && Named(n, above) && full == above + path
    ensures Named(Walk(n, path, full, at, h).0, above)
    decreases Size(n)
  {
    hide *;
    StaticWalk(n, path);
    PrefixFacts(n, path);
    RestIsValid(n, path);
    var i := LongestCommonPrefix(path, n.path);
    if i < |n.path| {
      WalkForm(n, path, full, at, h);
      SplitGrowsNamed(n, i, full[at + i..], path, full, h, above);
    } else if i == |path| {
      WalkPlaces(n, path, full, at, h);
      PlaceNamed(n, full, h, above);
    } else {
      IndicesAndChildren(n);
      WalkDescends(n, path, full, at, h);
      DescendNamed(n, path, full, at, h, above);
    }
  }

  lemma WalkPlaces(n: Node, path: string, full: string, at: nat, h: Handler)
    requires MayWalk(n, path) && at + |path| <= |full| && LongestCommonPrefix(path, n.path) == |n.path| == |path|
    ensures path == n.path && Walk(n, path, full, at, h) == Place(n, full, h)
  {
  }

  lemma SplitGrowsNamed(n: Node, i: nat, up: string, path: string, full: string, h: Handler, above: string)
    requires Good(n) && n.priority > 0 && n.kind != Param && i < |n.path| && i <= |path| && Named(n, above)
    requires path == n.path[..i] + path[i..] && full == above + path
    requires i < |path| ==> ValidPattern(path[i..]) && path[i] != n.path[i]
    requires |Split(n, i, up).indices| <= |Split(n, i, up).children|
    ensures Named((if i < |path| then Grow(Split(n, i, up), path[i..], full, h) else Place(Split(n, i, up), full, h)).0, above)
  {
    hide *;
    var low := Split(n, i, up);
    SplitGood(n, i, up);
    SplitNamed(n, i, up, above);
    SplitPath(n, i, up);
    SplitHasNoWild(n, i, up);
    if i < |path| {
      assert above + n.path[..i] + path[i..] == above + path;
      GrowNamed(low, path[i..], full, h, above);
    } else {
      assert path[i..] == "";
      assert n.path[..i] + "" == n.path[..i];
      PlaceNamed(low, full, h, above);
    }
  }

  /** Where the walk goes below a node: into a child, nowhere, or it grows one. */
  datatype Step = Into(m: Node, k: nat, pos: nat, passed: nat) | Stuck(m: Node) | Grows

  function NextStep(n: Node, rest: string): Step
    requires rest != "" && |n.indices| <= |n.children|
  {
    if n.kind == Param && rest[0] == '/' && |n.children| == 1 then
      Into(n.(children := [Raise(n.children[0])]), 0, 0, |n.path|)
    else if IndexOf(n.indices, rest[0]) < |n.indices| then
      var pos := IndexOf(n.indices, rest[0]);
      var (m, k) := IncrementChildPrio(n, pos);
      Into(m, k, pos, |n.path|)
    else if rest[0] == ':' && n.wildChild && n.children != [] then
      var last := |n.children| - 1;
      var m := n.(children := n.children[last := Raise(n.children[last])]);
      if SameWildcard(n.children[last].path, rest) then Into(m, last, last, 0) else Stuck(m)
    else Grows
  }

  /** The nodes of a step: the children of `n` in some order, one of them raised. */
  predicate Rearranged(n: Node, m: Node, k: nat, pos: nat) {
    && m.path == n.path && m.handler == n.handler && m.fullPath == n.fullPath && m.priority == n.priority
    && m.kind == n.kind && m.wildChild == n.wildChild && |m.children| == |n.children|
    && k < |m.children| && pos < |n.children| && m.children[k] == Raise(n.children[pos])
    && forall c | c in m.children :: c in n.children || c == Raise(n.children[pos])
  }

  lemma StepRearranges(n: Node, rest: string)
    requires rest != "" && |n.indices| <= |n.children|
    ensures var s := NextStep(n, rest);
            && (s.Into? ==> Rearranged(n, s.m, s.k, s.pos))
            && (s.Stuck? ==> n.children != [] && Rearranged(n, s.m, |n.children| - 1, |n.children| - 1))
  {
    var pos := IndexOf(n.indices, rest[0]);
    if !(n.kind == Param && rest[0] == '/' && |n.children| == 1) && pos < |n.indices| {
      RaisedChild(n, pos);
      var cs := n.children[pos := Raise(n.children[pos])];
      SameElements(cs, pos, NewPosition(cs, pos, cs[pos].priority));
      hide MoveForward, NewPosition;
    }
  }

  /** The walk takes the step. */
  lemma StepIsTaken(n: Node, path: string, full: string, at: nat, h: Handler)
    requires MayWalk(n, path) && at + |path| <= |full|
    requires LongestCommonPrefix(path, n.path) == |n.path| < |path| && |n.indices| <= |n.children|
    ensures var rest := path[|n.path|..];
            var s := NextStep(n, rest);
            var r := Descend(n, path, full, at, h);
            match s
            case Into(m, k, pos, passed) =>
              && k < |m.children| && Size(m.children[k]) < Size(n) && MayWalk(m.children[k], rest)
              && at + passed + |rest| <= |full|
              && r == (m.(children := m.children[k := Walk(m.children[k], rest, full, at + passed, h).0]),
                       Walk(m.children[k], rest, full, at + passed, h).1)
            case Stuck(m) => r == (m, false)
            case Grows => r == Grow(n, rest, full, h)
  {
    hide Walk, MayWalk, Size, LongestCommonPrefix, Grow, IncrementChildPrio, IndexOf;
    OnlyOneWay(n, path);
    var rest := path[|n.path|..];
    if n.kind == Param && rest[0] == '/' && |n.children| == 1 {
      RaisedSize(n, 0);
      MayWalkParam(n, path);
      ReplaceOnly(n, Raise(n.children[0]), Walk(Raise(n.children[0]), rest, full, at + |n.path|, h).0);
    } else if IndexOf(n.indices, rest[0]) < |n.indices| {
      var pos := IndexOf(n.indices, rest[0]);
      RaisedChild(n, pos);
      RaisedSize(n, pos);
      MayWalkIndexed(n, path);
    } else if rest[0] == ':' && n.wildChild {
      MayWalkWild(n, path);
      var last := |n.children| - 1;
      RaisedSize(n, last);
      if SameWildcard(n.children[last].path, rest) {
        ReplaceAgain(n, last, Raise(n.children[last]), Walk(Raise(n.children[last]), rest, full, at, h).0);
      }
    }
  }

  /** Where the walk grows a child it may. */
  lemma MayGrow(n: Node, path: string)
    requires MayWalk(n, path) && LongestCommonPrefix(path, n.path) == |n.path| < |path| && |n.indices| <= |n.children|
    requires NextStep(n, path[|n.path|..]).Grows?
    ensures var rest := path[|n.path|..];
            if n.kind == Param then n.children == [] && rest[0] == '/'
            else (rest[0] == ':' ==> !n.wildChild) && IndexOf(n.indices, rest[0]) == |n.indices|
  {
    OnlyOneWay(n, path);
    StaticWalk(n, path);
    ChildlessParam(n);
    hide IncrementChildPrio, IndexOf, LongestCommonPrefix;
    if n.kind != Param && n.wildChild { WildIsThere(n); }
  }

  lemma WildIsThere(n: Node)
    requires Good(n) && n.kind != Param && n.wildChild
    ensures n.children != []
  {
  }

  lemma {:induction false} DescendNamed(n: Node, path: string, full: string, at: nat, h: Handler, above: string)
    requires MayWalk(n, path) && at + |path| <= |full| && Named(n, above) && full == above + path
    requires LongestCommonPrefix(path, n.path) == |n.path| < |path| && |n.indices| <= |n.children|
    ensures Named(Descend(n, path, full, at, h).0, above)
    decreases Size(n), 0
  {
    hide *;
    var rest := path[|n.path|..];
    PathIsPrefix(n, path);
    assert above + n.path + rest == above + path;
    StepRearranges(n, rest);
    StepIsTaken(n, path, full, at, h);
    var s := NextStep(n, rest);
    if s.Into? {
      ChildNamed(n, s.pos, above, s);
      WalkNamed(s.m.children[s.k], rest, full, at + s.passed, h, above + n.path);
      RearrangedNamed(n, s.m, s.k, s.pos, Walk(s.m.children[s.k], rest, full, at + s.passed, h).0, above);
    } else if s.Stuck? {
      StuckNamed(n, s.m, above);
    } else {
      StaticWalk(n, path);
      RestIsValid(n, path);
      MayGrow(n, path);
      GrowNamed(n, rest, full, h, above);
    }
  }

  lemma ChildNamed(n: Node, pos: nat, above: string, s: Step)
    requires Named(n, above) && s.Into? && Rearranged(n, s.m, s.k, pos)
    ensures Named(s.m.children[s.k], above + n.path)
  {
    RaiseNamed(n.children[pos], above + n.path);
  }

  lemma RearrangedNamed(n: Node, m: Node, k: nat, pos: nat, child: Node, above: string)
    requires Named(n, above) && Rearranged(n, m, k, pos) && Named(child, above + n.path)
    ensures Named(m.(children := m.children[k := child]), above)
  {
    var r := m.(children := m.children[k := child]);
    RaiseNamed(n.children[pos], above + n.path);
    hide Named;
    NamedHere(n, above);
    NamedHere(r, above);
    assert n.children[pos] in n.children;
    RaiseNamed(n.children[pos], above + n.path);
    forall c | c in r.children
      ensures Named(c, above + n.path)
    {
      assert c == child || c in m.children;
    }
  }

  lemma StuckNamed(n: Node, m: Node, above: string)
    requires Named(n, above) && n.children != [] && Rearranged(n, m, |n.children| - 1, |n.children| - 1)
    ensures Named(m, above)
  {
    var last := |n.children| - 1;
    RaiseNamed(n.children[last], above + n.path);
    RearrangedNamed(n, m, last, last, m.children[last], above);
    assert m.children[last := m.children[last]] == m.children;
  }

  /** Every node with a handler is marked with the whole route that leads to it. */
  lemma AddNamed(root: Node, path: string, h: Handler)
    requires GoodRoot(root) && path != "" && ValidPattern(path) && Named(root, "")
    ensures Named(Add(root, path, h).0, "")
  {
    var n := Raise(root).(kind := Root);
    RaisedRoot(root);
    hide Good, ValidPattern, Walk, InsertChild, Named, AllNamed, SameTable, GoodRoot;
    NamedHere(root, "");
    NamedHere(n, "");
    assert "" + path == path;
    if n.path == "" && n.children == [] {
      NotWild(n);
      InsertNamed(n, path, path, h, "");
    } else {
      WalkNamed(n, path, path, 0, h, "");
    }
  }

  lemma NotWild(n: Node)
    requires Good(n) && n.kind == Root && n.children == []
    ensures !n.wildChild
  {
  }

  lemma {:induction false} TreeIsNamed(calls: seq<Call>)
    requires ValidCalls(calls)
    ensures Named(TreeAfter(calls), "")
    decreases |calls|
  {
    hide Add, GoodRoot, ValidPattern;
    if calls != [] {
      var n := |calls| - 1;
      assert ValidCall(calls[n]);
      TreeIsNamed(calls[..n]);
      AddNamed(TreeAfter(calls[..n]), calls[n].path, calls[n].handler);
    }
  }
}
