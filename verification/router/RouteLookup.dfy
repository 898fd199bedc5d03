/**
 The lookup: a walk that tries static children first, remembers where a parameter could
 have been taken instead, and goes back there when it gets stuck.
 */
module RouteLookup {
  import opened RouteTree
  import opened RouteTable
  import opened RouteAdd
  import opened RouteWalk
  import opened RouteRuns
  import opened RouteNames
  import opened RouteFill

  /** A place to go back to: the path left there, the node, and how many values were bound. */
  datatype Skipped = Skipped(path: string, node: Node, count: nat)

  datatype Value = Missing | Found(handler: Handler, fullPath: string)

  predicate HasSuffix(s: string, suffix: string) {
    |s| >= |suffix| && s[|s| - |suffix|..] == suffix
  }

  // ----- the nodes the lookup meets

  /** A node of a tree, or the copy of one that has lost its index string. */
  predicate Visitable(n: Node) {
    && n.kind != Param && !HasWild(n.path) && Heads(n.children)
    && (forall i | 0 <= i < |n.children| :: Good(n.children[i]))
    && (n.wildChild ==> n.children != [] && n.children[|n.children| - 1].kind == Param)
    && |n.indices| <= (if n.wildChild then |n.children| - 1 else |n.children|)
    && (forall i | 0 <= i < |n.indices| :: IsStatic(n.children[i]) && n.children[i].path[0] == n.indices[i])
  }

  lemma IndexedChildren(cs: seq<Node>, indices: string)
    requires Indexed(cs, indices)
    ensures |cs| == |indices|
    ensures forall i | 0 <= i < |cs| :: IsStatic(cs[i]) && cs[i].path[0] == indices[i]
  {
  }

  lemma GoodIsVisitable(n: Node)
    requires Good(n) && n.kind != Param
    ensures Visitable(n) && Visitable(n.(indices := ""))
  {
    hide Good, HasWild, Indexed, Heads, IsStatic;
    GoodHeads(n);
    UnfoldGood(n);
    var st := Statics(n);
    IndexedChildren(st, n.indices);
    assert forall i | 0 <= i < |st| :: st[i] == n.children[i];
  }

  // ----- how long the lookup can go on

  function Cost(n: Node): (c: nat)
    ensures c >= 2
    decreases n
  {
    2 + Costs(n.children)
  }

  function Costs(cs: seq<Node>): nat
    decreases cs
  {
    if cs == [] then 0 else Costs(cs[..|cs| - 1]) + Cost(cs[|cs| - 1])
  }

  lemma {:induction false} CostOfOne(cs: seq<Node>, i: nat)
    requires i < |cs|
    ensures Cost(cs[i]) <= Costs(cs)
    ensures i < |cs| - 1 ==> Cost(cs[i]) + Cost(cs[|cs| - 1]) <= Costs(cs)
    decreases |cs|
  {
    if i < |cs| - 1 {
      CostOfOne(cs[..|cs| - 1], i);
    }
  }

  /** What is ahead from a node: below it, or only below its wildcard child if its index string is empty. */
  function Ahead(n: Node): nat {
    if n.indices == "" && n.wildChild && n.children != [] then 1 + Cost(n.children[|n.children| - 1])
    else Cost(n)
  }

  lemma AheadIsLess(n: Node)
    ensures 0 < Ahead(n) <= Cost(n)
  {
    if n.children != [] { CostOfOne(n.children, |n.children| - 1); }
  }

  function AheadAll(skipped: seq<Skipped>): nat {
    if skipped == [] then 0 else AheadAll(skipped[..|skipped| - 1]) + Ahead(skipped[|skipped| - 1].node)
  }

  lemma {:induction false} AheadOfPrefix(skipped: seq<Skipped>, i: nat)
    requires i < |skipped|
    ensures AheadAll(skipped[..i]) + Ahead(skipped[i].node) <= AheadAll(skipped)
    decreases |skipped|
  {
    var n := |skipped| - 1;
    if i < n {
      AheadOfPrefix(skipped[..n], i);
      assert skipped[..n][..i] == skipped[..i];
    }
  }

  // ----- what holds on the way

  /** The node sits in the tree below the route `above`. */
  ghost predicate SitsAt(root: Node, above: string, n: Node) {
    forall s | n.path <= s :: Routed(root, above + s) == Routed(n, s)
  }

  /**
   The lookup of `text` stands before `n`, below the route `above`: the values bound so far
   fill it to what has been read, and `path` is what has not.
   */
  ghost predicate Standing(root: Node, text: string, n: Node, path: string, ps: seq<Binding>, above: string) {
    && Visitable(n) && Named(n, above) && SitsAt(root, above, n)
    && |path| <= |text| && Fills(above, ps, text[..|text| - |path|]) && HasSuffix(text, path)
    && OneSegmentEach(ps)
    && (Open(above) ==> n.path != "" && n.path[0] == '/')
  }

  /** Every place to go back to is one where the lookup has stood, with the first of the values. */
  ghost predicate MayReturn(root: Node, text: string, skipped: seq<Skipped>, ps: seq<Binding>, aboves: seq<string>) {
    && |aboves| == |skipped|
    && (forall i | 0 <= i < |skipped| :: skipped[i].count <= |ps|)
    && (forall i, j | 0 <= i < j < |skipped| :: skipped[i].count <= skipped[j].count)
    && (forall i | 0 <= i < |skipped| ::
          Standing(root, text, skipped[i].node, skipped[i].path, ps[..skipped[i].count], aboves[i]))
  }

  // ----- one step

  /** A child sits below its parent. */
  lemma SitsThrough(root: Node, above: string, n: Node, i: nat)
    requires SitsAt(root, above, n) && Heads(n.children) && i < |n.children|
    ensures SitsAt(root, above + n.path, n.children[i])
  {
    var child := n.children[i];
    HeadIsFound(n.children, i);
    forall s | child.path <= s
      ensures Routed(root, above + n.path + s) == Routed(child, s)
    {
      assert above + n.path + s == above + (n.path + s);
      assert (n.path + s)[|n.path|..] == s;
      assert s[0] == child.path[0];
      RoutedHere(n, n.path + s);
    }
  }

  lemma CopySits(root: Node, above: string, n: Node)
    requires SitsAt(root, above, n)
    ensures SitsAt(root, above, n.(indices := ""))
  {
    var c := n.(indices := "");
    forall s | c.path <= s
      ensures Routed(root, above + s) == Routed(c, s)
    {
      RoutedHere(n, s);
      RoutedHere(c, s);
    }
  }

  lemma CopyNamed(n: Node, above: string)
    requires Named(n, above)
    ensures Named(n.(indices := ""), above)
  {
    NamedHere(n, above);
    NamedHere(n.(indices := ""), above);
  }

  lemma CopyVisitable(n: Node)
    requires Visitable(n)
    ensures Visitable(n.(indices := ""))
  {
  }

  /** The lookup may come back to the copy. */
  lemma CopyStanding(root: Node, text: string, n: Node, path: string, ps: seq<Binding>, above: string)
    requires Standing(root, text, n, path, ps, above)
    ensures Standing(root, text, n.(indices := ""), path, ps, above)
  {
    hide Visitable, Named, SitsAt, Fills, Open;
    CopySits(root, above, n);
    CopyNamed(n, above);
    CopyVisitable(n);
  }

  lemma NoColon(s: string)
    requires !HasWild(s)
    ensures ':' !in s
  {
  }

  /** The node's own text is read: it has no parameters. */
  lemma ReadNode(root: Node, text: string, n: Node, path: string, ps: seq<Binding>, above: string)
    requires Standing(root, text, n, path, ps, above) && n.path <= path
    ensures |path| - |n.path| <= |text|
    ensures Fills(above + n.path, ps, text[..|text| - (|path| - |n.path|)])
    ensures HasSuffix(text, path[|n.path|..]) && !HasWild(n.path)
    ensures n.path != "" || !Open(above) ==> !Open(above + n.path)
  {
    hide Named, SitsAt, Fills, Open, HasWild;
    NoColon(n.path);
    var read := text[..|text| - |path|];
    FillsText(above, ps, read, n.path);
    var k := |text| - (|path| - |n.path|);
    assert text == read + path;
    assert text[..k] == read + n.path;
    assert text[k..] == path[|n.path|..];
  }

  lemma GoodStatic(n: Node)
    requires Good(n) && IsStatic(n)
    ensures Visitable(n) && n.path != ""
  {
    GoodIsVisitable(n);
  }

  /** Into the static child for the next character. */
  lemma IntoStatic(root: Node, text: string, n: Node, path: string, ps: seq<Binding>, above: string, i: nat)
    requires Standing(root, text, n, path, ps, above) && n.path <= path && i < |n.indices|
    ensures i < |n.children|
    ensures Standing(root, text, n.children[i], path[|n.path|..], ps, above + n.path)
  {
    ReadNode(root, text, n, path, ps, above);
    GoodStatic(n.children[i]);
    SitsThrough(root, above, n, i);
    NamedHere(n, above);
    assert n.children[i] in n.children;
    StaysClosed(n, above);
    hide Visitable, SitsAt, Fills, Named, HasWild;
  }

  lemma StaysClosed(n: Node, above: string)
    requires Open(above) ==> n.path != "" && n.path[0] == '/'
    requires n.path != "" || !Open(above) ==> !Open(above + n.path)
    ensures !Open(above + n.path)
  {
  }

  /** The wildcard child of a node the lookup meets. */
  function WildOf(n: Node): Node
    requires n.children != []
  {
    n.children[|n.children| - 1]
  }

  lemma WildIsGood(n: Node)
    requires Visitable(n) && n.wildChild
    ensures n.children != [] && Good(WildOf(n)) && WildOf(n).kind == Param && GoodParam(WildOf(n))
    ensures var name := WildOf(n).path; name != "" && name[0] == ':' && ':' !in name[1..] && '/' !in name
    ensures Heads(WildOf(n).children)
  {
    var m := WildOf(n);
    NoColon(m.path[1..]);
    GoodHeads(m);
  }

  function Bind(n: Node, rest: string): Binding
    requires n.children != [] && WildOf(n).path != ""
  {
    Binding(WildOf(n).path[1..], rest[..SegmentEnd(rest)])
  }

  /** The segment is read as the parameter's value. */
  lemma ReadParam(root: Node, text: string, n: Node, path: string, ps: seq<Binding>, above: string)
    requires Standing(root, text, n, path, ps, above) && n.path <= path && n.wildChild
    ensures n.children != [] && WildOf(n).path != ""
    ensures var rest := path[|n.path|..];
            var left := rest[SegmentEnd(rest)..];
            && |left| <= |text| && HasSuffix(text, left)
            && Fills(above + n.path + WildOf(n).path, ps + [Bind(n, rest)], text[..|text| - |left|])
            && Open(above + n.path + WildOf(n).path) && OneSegmentEach(ps + [Bind(n, rest)])
  {
    hide Visitable, SitsAt, Fills, Named, HasWild, Open, GoodParam, Good, Heads, WildOf, HasSuffix, SegmentEnd;
    ReadNode(root, text, n, path, ps, above);
    WildIsGood(n);
    StaysClosed(n, above);
    var rest := path[|n.path|..];
    var e := SegmentEnd(rest);
    ReadSegment(text, rest, e);
    FillsParam(above + n.path, ps, text[..|text| - |rest|], WildOf(n).path, rest[..e]);
  }

  lemma ReadSegment(text: string, rest: string, e: nat)
    requires HasSuffix(text, rest) && e <= |rest|
    ensures |rest| <= |text| && HasSuffix(text, rest[e..])
    ensures text[..|text| - |rest[e..]|] == text[..|text| - |rest|] + rest[..e]
  {
    var read := text[..|text| - |rest|];
    assert text == read + rest;
    assert text[|text| - |rest[e..]|..] == rest[e..];
  }

  lemma WildSits(root: Node, n: Node, above: string)
    requires Visitable(n) && n.wildChild && SitsAt(root, above, n) && Named(n, above)
    ensures n.children != []
    ensures SitsAt(root, above + n.path, WildOf(n)) && Named(WildOf(n), above + n.path)
  {
    NamedHere(n, above);
    assert WildOf(n) in n.children;
    SitsThrough(root, above, n, |n.children| - 1);
  }

  /** Through a parameter into what follows it. */
  lemma IntoParam(root: Node, text: string, n: Node, path: string, ps: seq<Binding>, above: string)
    requires Standing(root, text, n, path, ps, above) && n.path <= path && n.wildChild
    requires n.children != [] && WildOf(n).path != "" && WildOf(n).children != []
    ensures var rest := path[|n.path|..];
            Standing(root, text, WildOf(n).children[0], rest[SegmentEnd(rest)..], ps + [Bind(n, rest)],
                     above + n.path + WildOf(n).path)
  {
    ReadParam(root, text, n, path, ps, above);
    WildIsGood(n);
    WildSits(root, n, above);
    var m := WildOf(n);
    SitsThrough(root, above + n.path, m, 0);
    NamedHere(m, above + n.path);
    UnfoldGood(m);
    GoodStatic(m.children[0]);
    assert m.children[0] in m.children;
    hide Visitable, SitsAt, Fills, Named, HasWild, Open, Good, SegmentEnd, Bind, WildOf;
  }

  /** A handler found for `text`: it is the one registered under the route, and the values fill the route to `text`. */
  ghost predicate Sound(root: Node, text: string, value: Value, ps: seq<Binding>) {
    value.Found? ==> Routed(root, value.fullPath) == Some(value.handler) && Fits(value.fullPath, ps, text)
  }

  function ValueOf(n: Node): Value {
    if n.handler.Some? then Found(n.handler.value, n.fullPath) else Missing
  }

  lemma SitsRouted(root: Node, above: string, n: Node)
    requires SitsAt(root, above, n) && Named(n, above)
    ensures n.handler.Some? ==> n.fullPath == above + n.path && Routed(root, n.fullPath) == n.handler
  {
    assert n.path <= n.path;
    RoutedHere(n, n.path);
  }

  /** The path ends at the node. */
  lemma FoundHere(root: Node, text: string, n: Node, ps: seq<Binding>, above: string)
    requires Standing(root, text, n, n.path, ps, above)
    ensures Sound(root, text, ValueOf(n), ps)
  {
    ReadNode(root, text, n, n.path, ps, above);
    SitsRouted(root, above, n);
    assert text[..|text|] == text;
    hide Visitable, SitsAt, Named, HasWild, Open, Fills;
  }

  /** The path ends in a parameter. */
  lemma FoundParam(root: Node, text: string, n: Node, path: string, ps: seq<Binding>, above: string)
    requires Standing(root, text, n, path, ps, above) && Passes(n, path) && n.wildChild
    requires SegmentEnd(path[|n.path|..]) == |path| - |n.path|
    ensures n.children != [] && WildOf(n).path != ""
    ensures Sound(root, text, ValueOf(WildOf(n)), ps + [Bind(n, path[|n.path|..])])
  {
    ReadParam(root, text, n, path, ps, above);
    WildSits(root, n, above);
    SitsRouted(root, above + n.path, WildOf(n));
    assert text[..|text|] == text;
    assert path[|n.path|..] != "";
    hide Visitable, SitsAt, Named, HasWild, Open, Fills;
  }

  // ----- places to go back to

  /** Remembering a place, while the values are all still there. */
  lemma Remember(root: Node, text: string, skipped: seq<Skipped>, ps: seq<Binding>, aboves: seq<string>, s: Skipped, above: string)
    requires MayReturn(root, text, skipped, ps, aboves)
    requires s.count == |ps| && Standing(root, text, s.node, s.path, ps, above)
    ensures MayReturn(root, text, skipped + [s], ps, aboves + [above])
  {
    hide Standing;
    assert ps[..|ps|] == ps;
  }

  /** Binding a value leaves the places as they are. */
  lemma BindMore(root: Node, text: string, skipped: seq<Skipped>, ps: seq<Binding>, aboves: seq<string>, b: Binding)
    requires MayReturn(root, text, skipped, ps, aboves)
    ensures MayReturn(root, text, skipped, ps + [b], aboves)
  {
    hide Standing;
    assert forall i | 0 <= i < |skipped| :: (ps + [b])[..skipped[i].count] == ps[..skipped[i].count];
  }

  /** Going back to a place drops the places and the values after it. */
  lemma Return(root: Node, text: string, skipped: seq<Skipped>, ps: seq<Binding>, aboves: seq<string>, k: nat)
    requires MayReturn(root, text, skipped, ps, aboves) && k < |skipped|
    ensures skipped[k].count <= |ps|
    ensures MayReturn(root, text, skipped[..k], ps[..skipped[k].count], aboves[..k])
    ensures Standing(root, text, skipped[k].node, skipped[k].path, ps[..skipped[k].count], aboves[k])
  {
    hide Standing;
    assert forall i | 0 <= i < k :: ps[..skipped[k].count][..skipped[i].count] == ps[..skipped[i].count];
  }

  // ----- the lookup

  /** What the lookup finds when it never has to go back. */
  function Greedy(n: Node, path: string, ps: seq<Binding>): (Value, seq<Binding>)
    decreases n
  {
    if n.path == path then (ValueOf(n), ps)
    else if |n.path| < |path| && n.path <= path then
      var rest := path[|n.path|..];
      var i := IndexOf(n.indices, rest[0]);
      if i < |n.indices| then (if i < |n.children| then Greedy(n.children[i], rest, ps) else (Missing, ps))
      else if n.wildChild && n.children != [] && WildOf(n).path != "" then
        var m, e := WildOf(n), SegmentEnd(rest);
        var qs := ps + [Bind(n, rest)];
        if e == |rest| then (ValueOf(m), qs)
        else if m.children != [] then Greedy(m.children[0], rest[e..], qs)
        else (Missing, qs)
      else (Missing, ps)
    else (Missing, ps)
  }

  /** Where the greedy walk finds something, it is still on its way to it. */
  predicate OnCourse(root: Node, text: string, n: Node, path: string, ps: seq<Binding>) {
    Greedy(root, text, []).0.Found? ==> Greedy(n, path, ps) == Greedy(root, text, [])
  }

  lemma Begins(root: Node, text: string)
    requires GoodRoot(root) && Named(root, "")
    ensures Standing(root, text, root, text, [], "")
    ensures MayReturn(root, text, [], [], [])
  {
    GoodIsVisitable(root);
    NothingFilled();
    hide Visitable, Fills, Named;
    assert text[..0] == "";
    assert forall s: string :: "" + s == s;
  }

  /** The variables of the loop. */
  datatype Place = Place(n: Node, path: string, ps: seq<Binding>, count: nat, skipped: seq<Skipped>)

  ghost predicate Inv(root: Node, text: string, p: Place, above: string, aboves: seq<string>) {
    && Standing(root, text, p.n, p.path, p.ps, above)
    && MayReturn(root, text, p.skipped, p.ps, aboves)
    && p.count == |p.ps|
    && OnCourse(root, text, p.n, p.path, p.ps)
  }

  function Measure(p: Place): nat {
    Ahead(p.n) + AheadAll(p.skipped)
  }

  /** What `get_value` may return. */
  ghost predicate Right(root: Node, text: string, value: Value, ps: seq<Binding>) {
    && Sound(root, text, value, ps)
    && (Greedy(root, text, []).0.Found? ==> (value, ps) == Greedy(root, text, []))
  }

  lemma Stuck(root: Node, text: string, n: Node, path: string, ps: seq<Binding>)
    requires OnCourse(root, text, n, path, ps) && !Greedy(n, path, ps).0.Found?
    ensures !Greedy(root, text, []).0.Found? && Right(root, text, Missing, ps)
  {
    hide Greedy;
  }

  lemma BackInv(root: Node, text: string, p: Place, i: nat, above: string, aboves: seq<string>)
    requires Inv(root, text, p, above, aboves) && i < |p.skipped| && !Greedy(root, text, []).0.Found?
    ensures p.skipped[i].count <= |p.ps| && |aboves| == |p.skipped|
    ensures var s := p.skipped[i];
            var q := Place(s.node, s.path, p.ps[..s.count], s.count, p.skipped[..i]);
            Inv(root, text, q, aboves[i], aboves[..i]) && Measure(q) < Measure(p)
  {
    Return(root, text, p.skipped, p.ps, aboves, i);
    AheadOfPrefix(p.skipped, i);
    AheadIsLess(p.n);
    hide Standing, MayReturn, Greedy, Ahead, AheadAll;
  }

  /** How a turn of the loop ends. */
  datatype Outcome = Walking(p: Place) | Done(value: Value, ps: seq<Binding>)

  /** The last skipped place whose path ends in what is left, or -1. */
  function LastFitting(skipped: seq<Skipped>, path: string): (i: int)
    ensures -1 <= i < |skipped|
  {
    if skipped == [] then -1
    else if HasSuffix(skipped[|skipped| - 1].path, path) then |skipped| - 1
    else LastFitting(skipped[..|skipped| - 1], path)
  }

  /** Going back to a skipped place. */
  function BackTo(p: Place, i: nat): Place
    requires i < |p.skipped|
  {
    var s := p.skipped[i];
    Place(s.node, s.path, if |p.ps| > s.count then p.ps[..s.count] else p.ps, s.count, p.skipped[..i])
  }

  function GoBack(p: Place, path: string): Outcome {
    var i := LastFitting(p.skipped, path);
    if i >= 0 then Walking(BackTo(p, i)) else Done(Missing, p.ps)
  }

  function PassTurn(p: Place): Outcome
    requires Passes(p.n, p.path)
  {
    var path := p.path[|p.n.path|..];
    var i := IndexOf(p.n.indices, path[0]);
    if i < |p.n.indices| then if i < |p.n.children| then Walking(IntoChild(p, i)) else Done(Missing, p.ps)
    else if !p.n.wildChild then if path != "/" then GoBack(p, path) else Done(Missing, p.ps)
    else if p.n.children == [] || WildOf(p.n).path == "" then Done(Missing, p.ps)
    else
      var m, ps := WildOf(p.n), p.ps + [Bind(p.n, path)];
      if SegmentEnd(path) == |path| then Done(ValueOf(m), ps)
      else if m.children != [] then Walking(ThroughParam(p))
      else Done(Missing, ps)
  }

  /** One turn of the loop of `get_value`. */
  function Turn(p: Place): Outcome {
    var prefix := p.n.path;
    if Passes(p.n, p.path) then PassTurn(p)
    else if p.path == prefix then
      if p.n.handler == None && p.path != "/" then GoBack(p, p.path) else Done(ValueOf(p.n), p.ps)
    else
      var tsr := p.path == "/" ||
        (|prefix| == |p.path| + 1 && prefix[|p.path|] == '/' && p.path == prefix[..|prefix| - 1] && p.n.handler.Some?);
      if tsr then Done(Missing, p.ps) else GoBack(p, p.path)
  }

  /** What the loop comes to; every turn of a lookup comes nearer to the end. */
  function LookupFrom(p: Place): (Value, seq<Binding>)
    decreases Measure(p)
  {
    match Turn(p)
    case Done(value, ps) => (value, ps)
    case Walking(q) => if Measure(q) < Measure(p) then LookupFrom(q) else (Missing, [])
  }

  function Lookup(root: Node, text: string): (Value, seq<Binding>) {
    LookupFrom(Place(root, text, [], 0, []))
  }

  lemma {:induction false} LastFittingIs(skipped: seq<Skipped>, path: string, i: nat)
    requires i <= |skipped| && forall j | i <= j < |skipped| :: !HasSuffix(skipped[j].path, path)
    ensures LastFitting(skipped, path) == LastFitting(skipped[..i], path)
    decreases |skipped|
  {
    if i < |skipped| {
      LastFittingIs(skipped[..|skipped| - 1], path, i);
      assert skipped[..|skipped| - 1][..i] == skipped[..i];
    } else {
      assert skipped[..i] == skipped;
    }
  }

  /**
   The loops that roll back: past the places whose path does not end in what is left, to
   one whose path does; values bound since are dropped.
   */
  method RollBack(p: Place, path: string) returns (ok: bool, q: Place)
    ensures ok <==> exists i | 0 <= i < |p.skipped| :: HasSuffix(p.skipped[i].path, path)
    ensures ok ==> HasSuffix(q.path, path)
    ensures GoBack(p, path) == if ok then Walking(q) else Done(Missing, p.ps)
  {
    hide *;
    q := p;
    var i := |p.skipped|;
    while i > 0
      invariant 0 <= i <= |p.skipped|
      invariant forall j | i <= j < |p.skipped| :: !HasSuffix(p.skipped[j].path, path)
    {
      i := i - 1;
      var s := p.skipped[i];
      if HasSuffix(s.path, path) {
        GoesBack(p, path, i);
        var ps := if |p.ps| > s.count then p.ps[..s.count] else p.ps;
        q := Place(s.node, s.path, ps, s.count, p.skipped[..i]);
        return true, q;
      }
    }
    StaysAway(p, path);
    ok := false;
  }

  /** A skipped place gone back to is one the lookup may stand at, and nearer to the end. */
  lemma BackOk(root: Node, text: string, p: Place, path: string, above: string, aboves: seq<string>)
    returns (above': string, aboves': seq<string>)
    requires Inv(root, text, p, above, aboves) && !Greedy(root, text, []).0.Found?
    ensures TurnOk(root, text, p, GoBack(p, path))
    ensures GoBack(p, path).Walking? ==> Inv(root, text, GoBack(p, path).p, above', aboves')
  {
    var i := LastFitting(p.skipped, path);
    above', aboves' := above, aboves;
    if i >= 0 {
      hide Inv, Greedy, Measure, Right;
      BackInv(root, text, p, i, above, aboves);
      assert p.ps[..|p.ps|] == p.ps;
      above', aboves' := aboves[i], aboves[..i];
    } else {
      hide Inv, Greedy, Measure, Sound;
      NotFoundRight(root, text, p, above, aboves);
    }
  }

  lemma NotFoundRight(root: Node, text: string, p: Place, above: string, aboves: seq<string>)
    requires Inv(root, text, p, above, aboves) && !Greedy(root, text, []).0.Found?
    ensures Right(root, text, Missing, p.ps)
  {
    hide Standing, MayReturn, Greedy;
  }

  lemma GoesBack(p: Place, path: string, i: nat)
    requires i < |p.skipped| && HasSuffix(p.skipped[i].path, path)
    requires forall j | i < j < |p.skipped| :: !HasSuffix(p.skipped[j].path, path)
    ensures GoBack(p, path) == Walking(BackTo(p, i))
    ensures BackTo(p, i) == Place(p.skipped[i].node, p.skipped[i].path,
      if |p.ps| > p.skipped[i].count then p.ps[..p.skipped[i].count] else p.ps, p.skipped[i].count, p.skipped[..i])
  {
    LastFittingIs(p.skipped, path, i + 1);
  }

  lemma StaysAway(p: Place, path: string)
    requires forall j | 0 <= j < |p.skipped| :: !HasSuffix(p.skipped[j].path, path)
    ensures GoBack(p, path) == Done(Missing, p.ps)
  {
    LastFittingIs(p.skipped, path, 0);
    assert p.skipped[..0] == [];
  }

  /** There is something left of the path behind the node's own. */
  predicate Passes(n: Node, path: string) {
    |n.path| < |path| && n.path <= path
  }

  /** Into the static child at `i`; a node with a wildcard child is remembered, as a copy. */
  function IntoChild(p: Place, i: nat): Place
    requires Passes(p.n, p.path) && i < |p.n.children|
  {
    var s := Skipped(p.path, p.n.(indices := ""), p.count);
    Place(p.n.children[i], p.path[|p.n.path|..], p.ps, p.count, if p.n.wildChild then p.skipped + [s] else p.skipped)
  }

  lemma ChildInv(root: Node, text: string, p: Place, i: nat, above: string, aboves: seq<string>)
    requires Inv(root, text, p, above, aboves) && Passes(p.n, p.path)
    requires i == IndexOf(p.n.indices, p.path[|p.n.path|]) < |p.n.indices|
    ensures i < |p.n.children|
    ensures Inv(root, text, IntoChild(p, i), above + p.n.path, if p.n.wildChild then aboves + [above] else aboves)
    ensures Measure(IntoChild(p, i)) < Measure(p)
  {
    hide Standing, MayReturn;
    IntoStatic(root, text, p.n, p.path, p.ps, above, i);
    if p.n.wildChild {
      CopyStanding(root, text, p.n, p.path, p.ps, above);
      Remember(root, text, p.skipped, p.ps, aboves, Skipped(p.path, p.n.(indices := ""), p.count), above);
    }
    ChildMeasure(root, text, p, i, above);
  }

  lemma ChildMeasure(root: Node, text: string, p: Place, i: nat, above: string)
    requires Standing(root, text, p.n, p.path, p.ps, above) && Passes(p.n, p.path)
    requires i < |p.n.indices| && i < |p.n.children|
    ensures Measure(IntoChild(p, i)) < Measure(p)
  {
    var n := p.n;
    CostOfOne(n.children, i);
    AheadIsLess(n.children[i]);
    assert Ahead(n) == Cost(n) == 2 + Costs(n.children);
    if n.wildChild {
      assert i < |n.children| - 1;
      assert (p.skipped + [Skipped(p.path, n.(indices := ""), p.count)])[..|p.skipped|] == p.skipped;
    }
  }

  /** Through the wildcard child into what follows it. */
  function ThroughParam(p: Place): Place
    requires Passes(p.n, p.path) && p.n.children != [] && WildOf(p.n).path != "" && WildOf(p.n).children != []
  {
    var rest := p.path[|p.n.path|..];
    Place(WildOf(p.n).children[0], rest[SegmentEnd(rest)..], p.ps + [Bind(p.n, rest)], p.count + 1, p.skipped)
  }

  lemma ParamInv(root: Node, text: string, p: Place, above: string, aboves: seq<string>)
    requires Inv(root, text, p, above, aboves) && Passes(p.n, p.path) && p.n.wildChild
    requires IndexOf(p.n.indices, p.path[|p.n.path|]) == |p.n.indices|
    requires p.n.children != [] && WildOf(p.n).path != "" && WildOf(p.n).children != []
    requires SegmentEnd(p.path[|p.n.path|..]) < |p.path| - |p.n.path|
    ensures Inv(root, text, ThroughParam(p), above + p.n.path + WildOf(p.n).path, aboves)
    ensures Measure(ThroughParam(p)) < Measure(p)
  {
    hide Standing, MayReturn;
    IntoParam(root, text, p.n, p.path, p.ps, above);
    BindMore(root, text, p.skipped, p.ps, aboves, Bind(p.n, p.path[|p.n.path|..]));
    ParamMeasure(p);
  }

  lemma ParamMeasure(p: Place)
    requires Passes(p.n, p.path) && p.n.wildChild && p.n.children != [] && WildOf(p.n).path != "" && WildOf(p.n).children != []
    ensures Measure(ThroughParam(p)) < Measure(p)
  {
    var n, m := p.n, WildOf(p.n);
    CostOfOne(n.children, |n.children| - 1);
    CostOfOne(m.children, 0);
    AheadIsLess(m.children[0]);
  }

  /** The handler of the parameter the path ends in. */
  lemma ParamRight(root: Node, text: string, p: Place, above: string, aboves: seq<string>)
    requires Inv(root, text, p, above, aboves) && Passes(p.n, p.path) && p.n.wildChild
    requires IndexOf(p.n.indices, p.path[|p.n.path|]) == |p.n.indices|
    requires p.n.children != [] && WildOf(p.n).path != "" && SegmentEnd(p.path[|p.n.path|..]) == |p.path| - |p.n.path|
    ensures Right(root, text, ValueOf(WildOf(p.n)), p.ps + [Bind(p.n, p.path[|p.n.path|..])])
  {
    hide Standing, MayReturn, Sound;
    FoundParam(root, text, p.n, p.path, p.ps, above);
  }

  /** The handler of the node the path ends at. */
  lemma HereRight(root: Node, text: string, p: Place, above: string, aboves: seq<string>)
    requires Inv(root, text, p, above, aboves) && p.path == p.n.path
    ensures Right(root, text, ValueOf(p.n), p.ps)
  {
    hide Standing, MayReturn, Sound;
    FoundHere(root, text, p.n, p.ps, above);
  }

  /** Nothing fits at the place. */
  lemma PlaceStuck(root: Node, text: string, p: Place, above: string, aboves: seq<string>)
    requires Inv(root, text, p, above, aboves) && !Greedy(p.n, p.path, p.ps).0.Found?
    ensures !Greedy(root, text, []).0.Found? && Right(root, text, Missing, p.ps)
  {
    hide Standing, MayReturn, Sound, Greedy;
    Stuck(root, text, p.n, p.path, p.ps);
  }

  lemma WildFacts(root: Node, text: string, p: Place, above: string, aboves: seq<string>)
    requires Inv(root, text, p, above, aboves) && p.n.wildChild
    ensures p.n.children != [] && WildOf(p.n).path != "" && WildOf(p.n).kind == Param
  {
    WildIsGood(p.n);
  }

  /** A turn that goes on comes nearer to the end; one that ends the lookup answers rightly. */
  ghost predicate TurnOk(root: Node, text: string, p: Place, o: Outcome) {
    match o
    case Walking(q) => Measure(q) < Measure(p)
    case Done(value, ps) => Right(root, text, value, ps)
  }

  /** The node's path is a proper prefix of what is left. */
  method PassNode(p: Place, ghost root: Node, ghost text: string, ghost above: string, ghost aboves: seq<string>)
    returns (o: Outcome)
    requires Inv(root, text, p, above, aboves) && Passes(p.n, p.path)
    ensures o == Turn(p)
  {
    hide Inv, Greedy, Measure, Right, Ahead, AheadAll, GoBack;
    var path := p.path[|p.n.path|..];
    var i := IndexOf(p.n.indices, path[0]);
    if i < |p.n.indices| {
      ChildInv(root, text, p, i, above, aboves);
      return Walking(IntoChild(p, i));
    }
    if !p.n.wildChild {
      if path != "/" {
        var ok, q := RollBack(p, path);
        if ok {
          return Walking(q);
        }
      }
      return Done(Missing, p.ps);
    }
    WildFacts(root, text, p, above, aboves);
    var m, e := WildOf(p.n), SegmentEnd(path);
    var ps := p.ps + [Bind(p.n, path)];
    if e < |path| {
      if |m.children| > 0 {
        return Walking(ThroughParam(p));
      }
      return Done(Missing, ps);
    }
    o := Done(ValueOf(m), ps);
  }

  /** Where a turn that passes the node's path leads. */
  lemma PassOk(root: Node, text: string, p: Place, above: string, aboves: seq<string>)
    returns (above': string, aboves': seq<string>)
    requires Inv(root, text, p, above, aboves) && Passes(p.n, p.path)
    ensures TurnOk(root, text, p, PassTurn(p))
    ensures PassTurn(p).Walking? ==> Inv(root, text, PassTurn(p).p, above', aboves')
  {
    hide Inv, Greedy, Measure, Right, Ahead, AheadAll, GoBack;
    above', aboves' := above, aboves;
    var path := p.path[|p.n.path|..];
    var i := IndexOf(p.n.indices, path[0]);
    if i < |p.n.indices| {
      ChildInv(root, text, p, i, above, aboves);
      above', aboves' := above + p.n.path, if p.n.wildChild then aboves + [above] else aboves;
    } else if !p.n.wildChild {
      NoWayOn(p.n, p.path, p.ps);
      PlaceStuck(root, text, p, above, aboves);
      if path != "/" {
        above', aboves' := BackOk(root, text, p, path, above, aboves);
      }
    } else {
      WildFacts(root, text, p, above, aboves);
      if SegmentEnd(path) == |path| {
        ParamRight(root, text, p, above, aboves);
      } else if WildOf(p.n).children != [] {
        ParamInv(root, text, p, above, aboves);
        above' := above + p.n.path + WildOf(p.n).path;
      } else {
        ParamEnds(p.n, p.path, p.ps);
        MissingRight(root, text, p, p.ps + [Bind(p.n, path)], above, aboves);
      }
    }
  }

  lemma NoWayOn(n: Node, path: string, ps: seq<Binding>)
    requires Passes(n, path) && IndexOf(n.indices, path[|n.path|]) == |n.indices| && !n.wildChild
    ensures Greedy(n, path, ps) == (Missing, ps)
  {
  }

  lemma ParamEnds(n: Node, path: string, ps: seq<Binding>)
    requires Passes(n, path) && IndexOf(n.indices, path[|n.path|]) == |n.indices| && n.wildChild
    requires n.children != [] && WildOf(n).path != "" && WildOf(n).children == []
    requires SegmentEnd(path[|n.path|..]) < |path| - |n.path|
    ensures !Greedy(n, path, ps).0.Found?
  {
  }

  lemma MissingRight(root: Node, text: string, p: Place, ps: seq<Binding>, above: string, aboves: seq<string>)
    requires Inv(root, text, p, above, aboves) && !Greedy(p.n, p.path, p.ps).0.Found?
    ensures Right(root, text, Missing, ps)
  {
    hide Standing, MayReturn, Greedy;
  }

  /** What is left is the node's path. */
  method AtNode(p: Place) returns (o: Outcome)
    requires p.path == p.n.path
    ensures o == Turn(p)
  {
    hide GoBack;
    if p.n.handler == None && p.path != "/" {
      var ok, q := RollBack(p, p.path);
      if ok {
        return Walking(q);
      }
    }
    o := Done(ValueOf(p.n), p.ps);
  }

  lemma NothingHere(n: Node, ps: seq<Binding>)
    requires n.handler == None
    ensures Greedy(n, n.path, ps) == (Missing, ps)
  {
  }

  /** What is left does not begin with the node's path. */
  method NoMatch(p: Place) returns (o: Outcome)
    requires !Passes(p.n, p.path) && p.path != p.n.path
    ensures o == Turn(p)
  {
    hide GoBack;
    var prefix := p.n.path;
    var tsr := p.path == "/" ||
      (|prefix| == |p.path| + 1 && prefix[|p.path|] == '/' && p.path == prefix[..|prefix| - 1] && p.n.handler.Some?);
    if !tsr && p.path != "/" {
      var ok, q := RollBack(p, p.path);
      if ok {
        return Walking(q);
      }
    }
    o := Done(Missing, p.ps);
  }

  lemma NothingMatches(n: Node, path: string, ps: seq<Binding>)
    requires !Passes(n, path) && path != n.path
    ensures Greedy(n, path, ps) == (Missing, ps)
  {
  }

  /** Every turn leads nearer to the end or to a right answer. */
  lemma TurnIsOk(root: Node, text: string, p: Place, above: string, aboves: seq<string>)
    returns (above': string, aboves': seq<string>)
    requires Inv(root, text, p, above, aboves)
    ensures TurnOk(root, text, p, Turn(p))
    ensures Turn(p).Walking? ==> Inv(root, text, Turn(p).p, above', aboves')
  {
    hide Inv, Greedy, Measure, Right, GoBack, PassTurn;
    above', aboves' := above, aboves;
    if Passes(p.n, p.path) {
      above', aboves' := PassOk(root, text, p, above, aboves);
    } else if p.path == p.n.path {
      if p.n.handler == None && p.path != "/" {
        NothingHere(p.n, p.ps);
        PlaceStuck(root, text, p, above, aboves);
        above', aboves' := BackOk(root, text, p, p.path, above, aboves);
      } else {
        HereRight(root, text, p, above, aboves);
      }
    } else {
      NothingMatches(p.n, p.path, p.ps);
      PlaceStuck(root, text, p, above, aboves);
      above', aboves' := BackOk(root, text, p, p.path, above, aboves);
    }
  }

  lemma {:induction false} LookupFromIsRight(root: Node, text: string, p: Place, above: string, aboves: seq<string>)
    requires Inv(root, text, p, above, aboves)
    ensures Right(root, text, LookupFrom(p).0, LookupFrom(p).1)
    decreases Measure(p)
  {
    hide Inv, Measure, Turn, Right;
    var above', aboves' := TurnIsOk(root, text, p, above, aboves);
    match Turn(p)
    case Walking(q) => LookupFromIsRight(root, text, q, above', aboves');
    case Done(_, _) =>
  }

  /** In every tree the lookup answers rightly. */
  lemma LookupIsRight(root: Node, text: string)
    requires GoodRoot(root) && Named(root, "")
    ensures Right(root, text, Lookup(root, text).0, Lookup(root, text).1)
  {
    Begins(root, text);
    hide Standing, MayReturn, LookupFrom, Right;
    LookupFromIsRight(root, text, Place(root, text, [], 0, []), "", []);
  }

  /**
   `get_value`: whatever is found is the handler of a route that the values bound fill to
   the text looked up; and if the walk gets there without going back, it is found.
   */
  method GetValue(root: Node, text: string) returns (value: Value, ps: seq<Binding>)
    requires GoodRoot(root) && Named(root, "")
    ensures (value, ps) == Lookup(root, text)
    ensures value.Found? ==> Routed(root, value.fullPath) == Some(value.handler) && Fits(value.fullPath, ps, text)
    ensures Greedy(root, text, []).0.Found? ==> (value, ps) == Greedy(root, text, [])
  {
    LookupIsRight(root, text);
    var p := Place(root, text, [], 0, []);
    ghost var above: string, aboves: seq<string> := "", [];
    Begins(root, text);
    while true
      invariant Inv(root, text, p, above, aboves) && LookupFrom(p) == Lookup(root, text)
      decreases Measure(p)
    {
      hide Inv, Measure, Greedy, Turn, Right, Fits, Routed;
      var o: Outcome;
      if Passes(p.n, p.path) {
        o := PassNode(p, root, text, above, aboves);
      } else if p.path == p.n.path {
        o := AtNode(p);
      } else {
        o := NoMatch(p);
      }
      above, aboves := TurnIsOk(root, text, p, above, aboves);
      match o
      case Walking(q) => p := q;
      case Done(v, bound) => return v, bound;
    }
  }

  // ----- routes without parameters

  /** A route without parameters is found going straight down to it, whatever else is in the tree. */
  lemma {:induction false} StaticIsFound(n: Node, path: string, above: string)
    requires Good(n) && n.kind != Param && Named(n, above) && ':' !in path && Routed(n, path).Some?
    ensures Greedy(n, path, []) == (Found(Routed(n, path).value, above + path), [])
    decreases n
  {
    hide Good, Named, HasWild;
    RoutedHere(n, path);
    if n.path == path {
      NamedHere(n, above);
    } else {
      var rest := path[|n.path|..];
      assert rest[0] in path;
      GoodHeads(n);
      StaticChild(n, rest);
      var i := IndexOf(n.indices, rest[0]);
      NamedHere(n, above);
      assert n.children[i] in n.children;
      assert ':' !in rest;
      StaticIsFound(n.children[i], rest, above + n.path);
      assert above + n.path + rest == above + path;
    }
  }

  /** The child a route without parameters continues with is in the index string. */
  lemma StaticChild(n: Node, rest: string)
    requires Good(n) && n.kind != Param && rest != "" && rest[0] != ':' && RoutedIn(n.children, rest).Some?
    ensures var i := IndexOf(n.indices, rest[0]);
            i < |n.indices| && i < |n.children| && Good(n.children[i]) && n.children[i].kind != Param
            && RoutedIn(n.children, rest) == Routed(n.children[i], rest)
  {
    hide *;
    var k := ChildFor(n.children, rest[0]);
    RoutedInChild(n.children, rest);
    GoodHeads(n);
    StaticAt(n, k);
    var i := IndexOf(n.indices, rest[0]);
    StaticAt(n, i);
    HeadIsFound(n.children, i);
  }

  lemma RoutedInChild(cs: seq<Node>, rest: string)
    requires rest != "" && RoutedIn(cs, rest).Some?
    ensures ChildFor(cs, rest[0]) < |cs| && RoutedIn(cs, rest) == Routed(cs[ChildFor(cs, rest[0])], rest)
  {
  }

  /** The children with an index character are those that do not begin with a colon. */
  lemma StaticAt(n: Node, i: nat)
    requires Good(n) && n.kind != Param
    ensures i < |n.indices| ==>
      i < |n.children| && Good(n.children[i]) && n.children[i].kind == Static
      && n.children[i].path != "" && n.children[i].path[0] == n.indices[i]
    ensures |n.indices| <= i < |n.children| ==> n.children[i].path != "" && n.children[i].path[0] == ':'
  {
    hide Good, HasWild, Indexed;
    UnfoldGood(n);
    var st := Statics(n);
    IndexedChildren(st, n.indices);
    if i < |st| {
      assert st[i] == n.children[i];
    } else if i < |n.children| {
      WildHead(n.children[i]);
    }
  }

  /** In a tree of routes without parameters the lookup finds a text exactly if it is a route. */
  lemma StaticLookupIff(root: Node, text: string)
    requires GoodRoot(root) && Named(root, "")
    requires forall route :: Routed(root, route).Some? ==> ':' !in route
    ensures Lookup(root, text).0 == if Routed(root, text).Some? then Found(Routed(root, text).value, text) else Missing
  {
    LookupIsRight(root, text);
    var (value, ps) := Lookup(root, text);
    hide Good, Named, Greedy, Lookup;
    if Routed(root, text).Some? {
      StaticIsFound(root, text, "");
      assert "" + text == text;
    }
    if value.Found? {
      StaticFillsItself(value.fullPath);
      MoreValues(value.fullPath, [], ps);
      assert [] + ps == ps;
    }
  }

  // ----- after any run of adding routes

  /** What the lookup finds after a run was registered by the first accepted call for that route. */
  lemma LookupAfterRun(calls: seq<Call>, text: string)
    requires ValidCalls(calls)
    ensures GoodRoot(TreeAfter(calls)) && Named(TreeAfter(calls), "")
    ensures var (value, ps) := Lookup(TreeAfter(calls), text);
            value.Found? ==>
              FirstAcceptedCall(calls, value.fullPath) == Some(value.handler) && Fits(value.fullPath, ps, text)
  {
    hide TreeAfter, FirstAcceptedCall, Lookup, GoodRoot, Named, ValidCall, Greedy;
    TreeIsNamed(calls);
    LookupIsRight(TreeAfter(calls), text);
    var (value, ps) := Lookup(TreeAfter(calls), text);
    if value.Found? {
      TreeIsTable(calls, value.fullPath);
    }
  }

  lemma {:induction false} FirstCallIsACall(calls: seq<Call>, route: string)
    ensures FirstCall(calls, route).Some? ==> exists i :: 0 <= i < |calls| && calls[i].path == route
    decreases |calls|
  {
    if calls != [] {
      var n := |calls| - 1;
      FirstCallIsACall(calls[..n], route);
      if FirstCall(calls[..n], route).Some? {
        var i :| 0 <= i < n && calls[..n][i].path == route;
        assert calls[i].path == route;
      }
    }
  }

  /** After routes without parameters the lookup is the map of first registrations. */
  lemma StaticLookupIsMap(calls: seq<Call>, text: string)
    requires StaticCalls(calls)
    ensures ValidCalls(calls)
    ensures Lookup(TreeAfter(calls), text).0 == match FirstCall(calls, text) case Some(h) => Found(h, text) case None => Missing
  {
    StaticCallsAreValid(calls);
    hide Lookup, TreeAfter, GoodRoot, ValidCall;
    TreeIsNamed(calls);
    forall route | Routed(TreeAfter(calls), route).Some?
      ensures ':' !in route
    {
      StaticTreeIsMap(calls, route);
      FirstCallIsACall(calls, route);
      var i :| 0 <= i < |calls| && calls[i].path == route;
      NoColon(calls[i].path);
    }
    StaticTreeIsMap(calls, text);
    StaticLookupIff(TreeAfter(calls), text);
  }

  /** A route without parameters that was accepted is found, whatever else was registered. */
  lemma StaticFoundAfterRun(calls: seq<Call>, text: string)
    requires ValidCalls(calls)
    ensures ':' !in text && FirstAcceptedCall(calls, text).Some? ==>
      Lookup(TreeAfter(calls), text) == (Found(FirstAcceptedCall(calls, text).value, text), [])
  {
    hide TreeAfter, FirstAcceptedCall, Lookup, ValidCall, Greedy, Good, Named;
    TreeIsNamed(calls);
    TreeIsTable(calls, text);
    var root := TreeAfter(calls);
    if ':' !in text && FirstAcceptedCall(calls, text).Some? {
      RootIsGood(root, text);
      StaticIsFound(root, text, "");
      LookupIsRight(root, text);
      assert "" + text == text;
    }
  }

  lemma RootIsGood(root: Node, text: string)
    requires GoodRoot(root)
    ensures Routed(root, text).Some? ==> Good(root) && root.kind != Param
  {
    RoutedHere(root, text);
  }
}
