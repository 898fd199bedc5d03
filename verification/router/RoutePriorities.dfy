/**
 While every call is accepted, a node's priority is the number of handlers below it.
 */
module RoutePriorities {
  import opened RouteTree
  import opened RouteTable
  import opened RouteAdd
  import opened RouteWalk
  import opened RouteRuns
  import opened RouteNames

  /** How many handlers there are in the tree. */
  function Weight(n: Node): nat
    decreases n
  {
    (if n.handler.Some? then 1 else 0) + Weights(n.children)
  }

  function Weights(cs: seq<Node>): nat
    decreases cs
  {
    if cs == [] then 0 else Weights(cs[..|cs| - 1]) + Weight(cs[|cs| - 1])
  }

  lemma WeightHere(n: Node)
    ensures Weight(n) == (if n.handler.Some? then 1 else 0) + Weights(n.children)
  {
  }

  lemma {:induction false} WeightsConcat(a: seq<Node>, b: seq<Node>)
    ensures Weights(a + b) == Weights(a) + Weights(b)
    decreases |b|
  {
    if b == [] {
      assert a + b == a;
    } else {
      var front := b[..|b| - 1];
      assert (a + b)[..|a + b| - 1] == a + front;
      WeightsConcat(a, front);
    }
  }

  lemma WeightsOne(c: Node)
    ensures Weights([c]) == Weight(c)
  {
    assert [c][..0] == [];
  }

  lemma WeightsMoved(cs: seq<Node>, from: nat, to: nat)
    requires to <= from < |cs|
    ensures Weights(MoveForward(cs, from, to)) == Weights(cs)
  {
    hide Weights, Weight;
    var a, b, c, d := cs[..to], cs[to..from], [cs[from]], cs[from + 1..];
    FourParts(cs, from, to);
    WeightsConcat(a + b + c, d);
    WeightsConcat(a + b, c);
    WeightsConcat(a, b);
    WeightsConcat(a + c + b, d);
    WeightsConcat(a + c, b);
    WeightsConcat(a, c);
  }

  lemma FourParts<T>(s: seq<T>, from: nat, to: nat)
    requires to <= from < |s|
    ensures s == s[..to] + s[to..from] + [s[from]] + s[from + 1..]
  {
  }

  lemma WeightsReplaced(cs: seq<Node>, k: nat, x: Node)
    requires k < |cs|
    ensures Weights(cs[k := x]) + Weight(cs[k]) == Weights(cs) + Weight(x)
  {
    assert cs == cs[..k] + [cs[k]] + cs[k + 1..];
    assert cs[k := x] == cs[..k] + [x] + cs[k + 1..];
    WeightsConcat(cs[..k] + [cs[k]], cs[k + 1..]);
    WeightsConcat(cs[..k] + [x], cs[k + 1..]);
    WeightsConcat(cs[..k], [cs[k]]);
    WeightsConcat(cs[..k], [x]);
    WeightsOne(x);
    WeightsOne(cs[k]);
  }

  /** Priorities count handlers, at the node and below. */
  predicate Exact(n: Node) {
    n.priority == Weight(n) && forall i | 0 <= i < |n.children| :: Exact(n.children[i])
  }

  predicate AllExact(cs: seq<Node>) {
    forall c | c in cs :: Exact(c)
  }

  lemma ExactHere(n: Node)
    ensures Exact(n) <==> n.priority == Weight(n) && AllExact(n.children)
  {
    assert forall i | 0 <= i < |n.children| :: n.children[i] in n.children;
  }

  /** The node's children are exact and it has `extra` more priority than handlers. */
  predicate Ready(n: Node, extra: nat) {
    n.priority == Weight(n) + extra && AllExact(n.children)
  }

  lemma {:induction false} InsertExact(n: Node, path: string, full: string, h: Handler)
    requires n.children == [] && n.handler == None && !n.wildChild && n.path == "" && ValidPattern(path) && n.priority == 1
    ensures Ready(InsertChild(n, path, full, h).0, 0)
    decreases |path|, 1
  {
    hide *;
    var i := FirstWild(path);
    var m := InsertChild(n, path, full, h).0;
    NoneExact();
    WeightHere(m);
    if i == |path| {
      InsertedPath(n, path, full, h);
      MakeReady(m, 0);
    } else {
      InsertHangsParam(n, path, full, h);
      PatternTail(path, i);
      ParamExact(path[i..], full, h);
      var param := NewParam(path[i..], full, h).0;
      AddedOnly(if i > 0 then n.(path := path[..i]) else n, param);
      OneExact(param);
      MakeReady(m, 0);
    }
  }

  lemma MakeReady(n: Node, extra: nat)
    requires n.priority == Weight(n) + extra && AllExact(n.children)
    ensures Ready(n, extra)
  {
  }

  lemma NoneExact()
    ensures AllExact([]) && Weights([]) == 0
  {
  }

  lemma OneExact(c: Node)
    requires Exact(c)
    ensures AllExact([c]) && Weights([c]) == Weight(c) == c.priority
  {
    WeightsOne(c);
  }

  lemma {:induction false} ParamExact(path: string, full: string, h: Handler)
    requires path != "" && IsWild(path[0]) && ValidPattern(path)
    ensures Exact(NewParam(path, full, h).0) && NewParam(path, full, h).0.priority == 1
    decreases |path|, 0
  {
    hide ValidPattern, WildcardName, InsertChild, Exact, Weight, AllExact, AddChild;
    var name := WildcardName(path);
    PatternAfterName(path, name);
    var param := NEW_NODE.(path := name, kind := Param, priority := 1, fullPath := full);
    var rest := path[|name|..];
    var m := NewParam(path, full, h).0;
    WeightHere(m);
    ExactHere(m);
    NoneExact();
    if rest != "" {
      var newNode := NEW_NODE.(priority := 1, fullPath := full);
      InsertExact(newNode, rest, full, h);
      NewNodeIsEmpty(full);
      InsertFresh(newNode, rest, full, h);
      var sub := InsertChild(newNode, rest, full, h).0;
      AddedOnly(param, sub);
      ExactHere(sub);
      OneExact(sub);
    }
  }

  lemma SplitReady(n: Node, i: nat, up: string)
    requires Ready(n, 1) && i < |n.path| && n.priority > 0
    ensures Ready(Split(n, i, up), 1) && Split(n, i, up).handler == None
  {
    var m := Split(n, i, up);
    var low := m.children[0];
    hide Weight, Exact, AllExact;
    WeightHere(n);
    WeightHere(low);
    ExactHere(low);
    OneExact(low);
    WeightHere(m);
  }

  lemma PlaceReady(n: Node, full: string, h: Handler)
    requires Ready(n, 1)
    ensures Place(n, full, h).1 ==> Ready(Place(n, full, h).0, 0)
  {
    hide Weight, AllExact;
    WeightHere(n);
    WeightHere(Place(n, full, h).0);
  }

  lemma ExactWith(cs: seq<Node>, ds: seq<Node>, child: Node)
    requires AllExact(cs) && Exact(child)
    requires forall c | c in ds :: c == child || c in cs
    ensures AllExact(ds)
  {
  }

  lemma GrowWildReady(n: Node, rest: string, full: string, h: Handler)
    requires Ready(n, 1) && !n.wildChild && rest != "" && rest[0] == ':' && ValidPattern(rest)
    requires |n.indices| <= |n.children|
    ensures Ready(Grow(n, rest, full, h).0, 0)
  {
    hide Exact, ValidPattern, NewParam, FirstWild, InsertChild, AllExact, Weight, Weights;
    FrontIsWild(rest);
    InsertHangsParam(n, rest, full, h);
    assert rest[0..] == rest;
    var param := NewParam(rest, full, h).0;
    ParamExact(rest, full, h);
    OneExact(param);
    var m := Grow(n, rest, full, h).0;
    assert m.children == n.children + [param];
    ExactWith(n.children, m.children, param);
    WeightsConcat(n.children, [param]);
    WeightHere(n);
    WeightHere(m);
  }

  lemma GrownWeights(n: Node, child: Node, k: nat)
    requires (n.wildChild ==> n.children != []) && k <= |Statics(n)| && k <= |n.indices| && child.path != ""
    ensures Weights(Grown(n, child, k).children) == Weights(n.children) + Weight(child)
  {
    hide Weight, Weights, Statics, Tail, InsertAt;
    var st := Statics(n);
    StaticsAndTail(n);
    WeightsConcat(st, Tail(n));
    WeightsConcat(InsertAt(st, k, child), Tail(n));
    InsertedWeights(st, k, child);
  }

  lemma InsertedWeights(st: seq<Node>, k: nat, child: Node)
    requires k <= |st|
    ensures Weights(InsertAt(st, k, child)) == Weights(st) + Weight(child)
  {
    hide Weight, Weights;
    WeightsConcat(st[..k] + [child], st[k..]);
    WeightsConcat(st[..k], [child]);
    WeightsConcat(st[..k], st[k..]);
    assert st == st[..k] + st[k..];
    WeightsOne(child);
  }

  lemma GrowStaticReady(n: Node, rest: string, full: string, h: Handler)
    requires Good(n) && Ready(n, 1) && rest != "" && rest[0] != ':' && ValidPattern(rest)
    requires |n.indices| <= |n.children| && (n.kind == Param ==> n.children == [])
    ensures Ready(Grow(n, rest, full, h).0, 0)
  {
    hide *;
    var newNode := NEW_NODE.(fullPath := full, priority := 1);
    WildIsColon(rest);
    NewNodeIsEmpty(full);
    InsertFresh(newNode, rest, full, h);
    InsertExact(newNode, rest, full, h);
    StaticsCounted(n);
    GrowForm(n, rest, full, h);
    var child := InsertChild(newNode, rest, full, h).0;
    var k := NewPlace(Statics(n));
    ReadyHere(n, 1);
    ReadyHere(child, 0);
    ExactHere(child);
    GrownChildren(n, child, k);
    ExactWith(n.children, Grown(n, child, k).children, child);
    GrownWeights(n, child, k);
    GrownKeepsAll(n, child, k);
    GrownPriority(n, child, k);
    WeightHere(n);
    WeightHere(Grown(n, child, k));
    MakeReady(Grown(n, child, k), 0);
  }

  lemma GrownPriority(n: Node, child: Node, k: nat)
    requires (n.wildChild ==> n.children != []) && k <= |Statics(n)| && k <= |n.indices| && child.path != ""
    ensures Grown(n, child, k).priority == n.priority
  {
  }

  lemma ReadyHere(n: Node, extra: nat)
    ensures Ready(n, extra) <==> n.priority == Weight(n) + extra && AllExact(n.children)
  {
  }

  lemma GrowReady(n: Node, rest: string, full: string, h: Handler)
    requires Good(n) && Ready(n, 1) && rest != "" && ValidPattern(rest) && |n.indices| <= |n.children|
    requires if n.kind == Param then n.children == [] && rest[0] == '/'
             else (rest[0] == ':' ==> !n.wildChild) && IndexOf(n.indices, rest[0]) == |n.indices|
    ensures Ready(Grow(n, rest, full, h).0, 0)
  {
    hide *;
    if rest[0] == ':' {
      GrowWildReady(n, rest, full, h);
    } else {
      GrowStaticReady(n, rest, full, h);
    }
  }

  /** An accepted walk makes the count right again. */
  lemma {:induction false} WalkReady(n: Node, path: string, full: string, at: nat, h: Handler)
    requires MayWalk(n, path) && at + |path| <= |full| && Ready(n, 1)
    ensures Walk(n, path, full, at, h).1 ==> Ready(Walk(n, path, full, at, h).0, 0)
    decreases Size(n)
  {
    hide *;
    StaticWalk(n, path);
    PrefixFacts(n, path);
    RestIsValid(n, path);
    var i := LongestCommonPrefix(path, n.path);
    if i < |n.path| {
      WalkForm(n, path, full, at, h);
      SplitGrowsReady(n, i, full[at + i..], path, full, h);
    } else if i == |path| {
      WalkPlaces(n, path, full, at, h);
      PlaceReady(n, full, h);
    } else {
      IndicesAndChildren(n);
      WalkDescends(n, path, full, at, h);
      DescendReady(n, path, full, at, h);
    }
  }

  lemma SplitGrowsReady(n: Node, i: nat, up: string, path: string, full: string, h: Handler)
    requires Good(n) && n.priority > 0 && n.kind != Param && i < |n.path| && i <= |path| && Ready(n, 1)
    requires i < |path| ==> ValidPattern(path[i..]) && path[i] != n.path[i]
    requires |Split(n, i, up).indices| <= |Split(n, i, up).children|
    ensures var r := if i < |path| then Grow(Split(n, i, up), path[i..], full, h) else Place(Split(n, i, up), full, h);
            r.1 ==> Ready(r.0, 0)
  {
    hide *;
    var low := Split(n, i, up);
    SplitGood(n, i, up);
    SplitReady(n, i, up);
    SplitHasNoWild(n, i, up);
    if i < |path| {
      GrowReady(low, path[i..], full, h);
    } else {
      PlaceReady(low, full, h);
    }
  }

  lemma MoveNowhere<T>(s: seq<T>, k: nat)
    requires k < |s|
    ensures MoveForward(s, k, k) == s
  {
  }

  lemma MoveReplaced<T>(s: seq<T>, from: nat, to: nat, x: T)
    requires to <= from < |s|
    ensures MoveForward(s, from, to)[to := x] == MoveForward(s[from := x], from, to)
  {
  }

  /** Into whatever child the step goes, replacing it there is replacing it in place and moving it. */
  lemma StepMoves(n: Node, rest: string, x: Node)
    requires rest != "" && |n.indices| <= |n.children| && NextStep(n, rest).Into?
    ensures var s := NextStep(n, rest);
            && s.k <= s.pos < |n.children| && |s.m.children| == |n.children|
            && s.m.children[s.k] == Raise(n.children[s.pos])
            && s.m.children[s.k := x] == MoveForward(n.children[s.pos := x], s.pos, s.k)
  {
    var s := NextStep(n, rest);
    if n.kind == Param && rest[0] == '/' && |n.children| == 1 {
      MoveNowhere(n.children[0 := x], 0);
    } else if IndexOf(n.indices, rest[0]) < |n.indices| {
      RaisedChild(n, s.pos);
      var raised := Raise(n.children[s.pos]);
      MoveReplaced(n.children[s.pos := raised], s.pos, s.k, x);
      assert n.children[s.pos := raised][s.pos := x] == n.children[s.pos := x];
      hide MoveForward;
    } else {
      MoveNowhere(n.children[s.pos := x], s.pos);
      assert s.m.children[s.k := x] == n.children[s.pos := x];
    }
  }

  lemma {:induction false} DescendReady(n: Node, path: string, full: string, at: nat, h: Handler)
    requires MayWalk(n, path) && at + |path| <= |full| && Ready(n, 1)
    requires LongestCommonPrefix(path, n.path) == |n.path| < |path| && |n.indices| <= |n.children|
    ensures Descend(n, path, full, at, h).1 ==> Ready(Descend(n, path, full, at, h).0, 0)
    decreases Size(n), 0
  {
    hide *;
    var rest := path[|n.path|..];
    StepRearranges(n, rest);
    StepIsTaken(n, path, full, at, h);
    var s := NextStep(n, rest);
    if s.Into? {
      var child := Walk(s.m.children[s.k], rest, full, at + s.passed, h).0;
      StepMoves(n, rest, child);
      RaisedReady(n, s.pos);
      WalkReady(s.m.children[s.k], rest, full, at + s.passed, h);
      WalkExtends(s.m.children[s.k], rest, full, at + s.passed, h);
      if Walk(s.m.children[s.k], rest, full, at + s.passed, h).1 {
        ResultPriority(s.m.children[s.k], rest, h, child, true);
        RaisePriority(n.children[s.pos]);
        ReplacedReady(n, s.m, s.k, s.pos, child);
      }
    } else if s.Grows? {
      StaticWalk(n, path);
      RestIsValid(n, path);
      MayGrow(n, path);
      GrowReady(n, rest, full, h);
    }
  }

  lemma ResultPriority(n: Node, path: string, h: Handler, m: Node, ok: bool)
    requires Result(n, path, h, m, ok)
    ensures m.priority == n.priority
  {
  }

  lemma RaisePriority(n: Node)
    ensures Raise(n).priority == n.priority + 1
  {
  }

  lemma RaisedReady(n: Node, pos: nat)
    requires Ready(n, 1) && pos < |n.children|
    ensures Ready(Raise(n.children[pos]), 1)
  {
    var c := n.children[pos];
    assert c in n.children;
    hide Weight, Weights, Exact;
    ExactHere(c);
    WeightHere(c);
    WeightHere(Raise(c));
  }

  lemma ReplacedReady(n: Node, m: Node, k: nat, pos: nat, child: Node)
    requires Ready(n, 1) && Rearranged(n, m, k, pos) && k <= pos
    requires m.children[k := child] == MoveForward(n.children[pos := child], pos, k)
    requires Ready(child, 0) && child.priority == n.children[pos].priority + 1
    ensures Ready(m.(children := m.children[k := child]), 0)
  {
    var r := m.(children := m.children[k := child]);
    var ds := n.children[pos := child];
    hide Weight, Weights, Exact, MoveForward;
    ExactHere(child);
    assert n.children[pos] in n.children;
    ExactHere(n.children[pos]);
    SameElements(ds, pos, k);
    ExactWith(n.children, r.children, child);
    WeightsMoved(ds, pos, k);
    WeightsReplaced(n.children, pos, child);
    WeightHere(n);
    WeightHere(r);
  }

  /** An accepted call leaves every priority counting handlers. */
  lemma AddExact(root: Node, path: string, h: Handler)
    requires GoodRoot(root) && path != "" && ValidPattern(path) && Exact(root) && Add(root, path, h).1
    ensures Exact(Add(root, path, h).0)
  {
    hide *;
    var n := Raise(root).(kind := Root);
    RaisedRoot(root);
    ExactHere(root);
    RootRaised(root);
    WeightHere(root);
    WeightHere(n);
    MakeReady(n, 1);
    AddForm(root, path, h);
    if n.path == "" && n.children == [] {
      NotWild(n);
      NothingBelow(n);
      InsertExact(n, path, path, h);
    } else {
      WalkReady(n, path, path, 0, h);
    }
    ReadyHere(Add(root, path, h).0, 0);
    ExactHere(Add(root, path, h).0);
  }

  lemma NothingBelow(n: Node)
    requires n.children == [] && n.handler == None
    ensures Weight(n) == 0
  {
  }

  lemma RootRaised(root: Node)
    ensures var n := Raise(root).(kind := Root);
            n.priority == root.priority + 1 && n.children == root.children && n.handler == root.handler && n.kind == Root
  {
  }

  lemma AddForm(root: Node, path: string, h: Handler)
    requires GoodRoot(root) && path != "" && ValidPattern(path)
    ensures var n := Raise(root).(kind := Root);
            && (n.path == "" && n.children == [] ==> n.handler == None && Add(root, path, h) == InsertChild(n, path, path, h))
            && (!(n.path == "" && n.children == []) ==>
                  MayWalk(n, path) && Add(root, path, h) == Walk(n, path, path, 0, h))
  {
    hide Walk, InsertChild;
  }

  predicate AllAccepted(calls: seq<Call>)
    requires ValidCalls(calls)
    decreases |calls|
  {
    calls != [] ==> LastReturned(calls) && AllAccepted(calls[..|calls| - 1])
  }

  /** In a run of accepted calls every node's priority is the number of handlers below it. */
  lemma {:induction false} PrioritiesCount(calls: seq<Call>)
    requires ValidCalls(calls) && AllAccepted(calls)
    ensures Exact(TreeAfter(calls))
    decreases |calls|
  {
    hide Add, GoodRoot, ValidPattern;
    if calls != [] {
      var n := |calls| - 1;
      assert ValidCall(calls[n]);
      PrioritiesCount(calls[..n]);
      AddExact(TreeAfter(calls[..n]), calls[n].path, calls[n].handler);
    }
  }
}
