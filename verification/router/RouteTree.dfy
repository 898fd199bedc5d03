/**
 The radix tree of the router: its nodes, and what adding a route does to them.
 */
module RouteTree {

  /** A handler is known by its number; a node without one has `None`. */
  type Handler = nat

  datatype Option<T> = None | Some(value: T)

  datatype Kind = Static | Root | Param

  datatype Node = Node(path: string, indices: string, wildChild: bool, kind: Kind, priority: nat,
                       children: seq<Node>, handler: Option<Handler>, fullPath: string)

  const NEW_NODE := Node("", "", false, Static, 0, [], None, "")

  function Sum(s: seq<nat>): nat {
    if s == [] then 0 else Sum(s[..|s| - 1]) + s[|s| - 1]
  }

  /** How many nodes there are. */
  function Size(n: Node): nat {
    1 + Sum(seq(|n.children|, i requires 0 <= i < |n.children| => Size(n.children[i])))
  }

  lemma {:induction false} PartOfSum(s: seq<nat>, k: nat)
    requires k < |s|
    ensures s[k] <= Sum(s)
    decreases |s|
  {
    if k < |s| - 1 {
      PartOfSum(s[..|s| - 1], k);
    }
  }

  lemma ChildIsSmaller(n: Node, k: nat)
    requires k < |n.children|
    ensures Size(n.children[k]) < Size(n)
  {
    PartOfSum(seq(|n.children|, i requires 0 <= i < |n.children| => Size(n.children[i])), k);
  }

  // ----- strings

  predicate IsWild(c: char) {
    c == ':' || c == '*'
  }

  function LongestCommonPrefix(a: string, b: string): (i: nat)
    ensures i <= |a| && i <= |b| && a[..i] == b[..i]
    ensures i < |a| && i < |b| ==> a[i] != b[i]
  {
    if a == "" || b == "" || a[0] != b[0] then 0
    else
      var i := 1 + LongestCommonPrefix(a[1..], b[1..]);
      assert a[..i] == [a[0]] + a[1..][..i - 1] && b[..i] == [b[0]] + b[1..][..i - 1];
      i
  }

  /** Where the first wildcard begins, or the length. */
  function FirstWild(path: string): (i: nat)
    ensures i <= |path|
    ensures forall j | 0 <= j < i :: !IsWild(path[j])
    ensures i < |path| ==> IsWild(path[i])
  {
    if path == "" || IsWild(path[0]) then 0 else 1 + FirstWild(path[1..])
  }

  /** Where the segment ends: at the next slash, or with the path. */
  function SegmentEnd(path: string): (e: nat)
    ensures e <= |path|
    ensures forall j | 0 <= j < e :: path[j] != '/'
    ensures e < |path| ==> path[e] == '/'
  {
    if path == "" || path[0] == '/' then 0 else 1 + SegmentEnd(path[1..])
  }

  predicate HasWild(s: string) {
    exists i | 0 <= i < |s| :: IsWild(s[i])
  }

  /** The wildcard at the front of `path`, up to the end of its segment. */
  function WildcardName(path: string): (name: string)
    requires path != "" && IsWild(path[0])
    ensures 1 <= |name| <= |path| && name == path[..|name|]
    ensures |name| < |path| ==> path[|name|] == '/'
    ensures forall i | 0 <= i < |name| :: name[i] != '/'
  {
    path[..SegmentEnd(path)]
  }

  /** Named, and the only wildcard of its segment. */
  predicate ValidWildcard(name: string) {
    |name| >= 2 && name[0] == ':' && !HasWild(name[1..])
  }

  /** Every wildcard of the route is a named parameter. */
  predicate ValidPattern(path: string)
    decreases |path|
  {
    var i := FirstWild(path);
    i < |path| ==>
      var name := WildcardName(path[i..]);
      ValidWildcard(name) && ValidPattern(path[i + |name|..])
  }

  function IndexOf(s: string, c: char): (i: nat)
    ensures i <= |s|
    ensures forall j | 0 <= j < i :: s[j] != c
    ensures i < |s| ==> s[i] == c
  {
    if s == "" || s[0] == c then 0 else 1 + IndexOf(s[1..], c)
  }

  // ----- adding

  /** `add_child`: the wildcard child stays last. */
  function AddChild(n: Node, child: Node): Node {
    if n.wildChild && |n.children| > 0 then
      n.(children := n.children[..|n.children| - 1] + [child, n.children[|n.children| - 1]])
    else
      n.(children := n.children + [child])
  }

  /** Where the child at `pos` comes to stand when its priority has grown to `prio`. */
  function NewPosition(cs: seq<Node>, pos: nat, prio: nat): (k: nat)
    requires pos <= |cs|
    ensures k <= pos
    ensures forall i | k <= i < pos :: cs[i].priority < prio
    ensures k > 0 ==> cs[k - 1].priority >= prio
  {
    if pos > 0 && cs[pos - 1].priority < prio then NewPosition(cs, pos - 1, prio) else pos
  }

  /** An element moved forward. */
  function MoveForward<T>(s: seq<T>, from: nat, to: nat): (r: seq<T>)
    requires to <= from < |s|
    ensures |r| == |s|
  {
    s[..to] + [s[from]] + s[to..from] + s[from + 1..]
  }

  function Raise(n: Node): Node {
    n.(priority := n.priority + 1)
  }

  /** `increment_child_prio`: the child's priority grows and it moves forward past lower ones. */
  function IncrementChildPrio(n: Node, pos: nat): (Node, nat)
    requires pos < |n.children| && pos < |n.indices|
  {
    var cs := n.children[pos := Raise(n.children[pos])];
    var k := NewPosition(cs, pos, cs[pos].priority);
    (n.(children := MoveForward(cs, pos, k), indices := MoveForward(n.indices, pos, k)), k)
  }

  /** `insert_child`: the nodes of a route, from the node that is to hold its beginning. */
  function InsertChild(n: Node, path: string, full: string, h: Handler): (Node, bool)
    decreases |path|
  {
    var i := FirstWild(path);
    if i == |path| then (n.(path := path, handler := Some(h), fullPath := full), true)
    else
      var name := WildcardName(path[i..]);
      if !ValidWildcard(name) then (n, false)
      else
        var head := if i > 0 then n.(path := path[..i]) else n;
        var rest := path[i + |name|..];
        var param := NEW_NODE.(path := name, kind := Param, priority := 1, fullPath := full);
        if rest == "" then (AddChild(head, param.(handler := Some(h))).(wildChild := true), true)
        else
          var (sub, ok) := InsertChild(NEW_NODE.(priority := 1, fullPath := full), rest, full, h);
          (AddChild(head, AddChild(param, sub)).(wildChild := true), ok)
  }

  /** An edge is split: what follows the common prefix moves to a child. */
  function Split(n: Node, i: nat, full: string): Node
    requires i < |n.path| && n.priority > 0
  {
    var child := n.(path := n.path[i..], kind := Static, priority := n.priority - 1);
    n.(children := [child], indices := [n.path[i]], path := n.path[..i], handler := None, wildChild := false,
       fullPath := full)
  }

  /** The wildcard child is the one the route continues with. */
  predicate SameWildcard(name: string, rest: string) {
    name <= rest && (|name| == |rest| || rest[|name|] == '/')
  }

  // ----- the shape of a tree

  predicate Sorted(cs: seq<Node>) {
    forall i, j | 0 <= i < j < |cs| :: cs[i].priority >= cs[j].priority
  }

  predicate Distinct(s: string) {
    forall i, j | 0 <= i < j < |s| :: s[i] != s[j]
  }

  /** The children that are not wildcards. */
  function Statics(n: Node): seq<Node>
    requires n.wildChild ==> n.children != []
  {
    if n.wildChild then n.children[..|n.children| - 1] else n.children
  }

  predicate IsStatic(n: Node) {
    n.kind == Static && n.path != "" && !HasWild(n.path)
  }

  /** The index string lists the first characters of the children, which are distinct, and sorted by priority. */
  predicate Indexed(cs: seq<Node>, indices: string) {
    && |cs| == |indices| && Distinct(indices) && Sorted(cs)
    && forall i | 0 <= i < |cs| :: IsStatic(cs[i]) && cs[i].path[0] == indices[i]
  }

  predicate GoodParam(n: Node) {
    && ValidWildcard(n.path) && '/' !in n.path && !n.wildChild
    && |n.children| <= 1
    && (n.children == [] ==> n.indices == "")
    && (n.children != [] ==> IsStatic(n.children[0]) && n.children[0].path[0] == '/' && (n.indices == "" || n.indices == "/"))
  }

  predicate GoodHere(n: Node) {
    if n.kind == Param then GoodParam(n)
    else
      && !HasWild(n.path)
      && (n.wildChild ==> n.children != [] && n.children[|n.children| - 1].kind == Param)
      && Indexed(Statics(n), n.indices)
  }

  /** The shape every tree has, node by node. */
  predicate Good(n: Node) {
    GoodHere(n) && forall i | 0 <= i < |n.children| :: Good(n.children[i])
  }

  /** Where the walk for a route may stand. */
  predicate MayWalk(n: Node, path: string) {
    && Good(n) && n.priority > 0 && ValidPattern(path)
    && (n.kind == Param ==> SameWildcard(n.path, path))
    && (n.kind == Static ==> IsStatic(n) && path != "" && path[0] == n.path[0])
  }

  /** The child at `k` with its priority raised. */
  lemma RaisedChild(n: Node, pos: nat)
    requires pos < |n.children| && pos < |n.indices|
    ensures var (m, k) := IncrementChildPrio(n, pos);
            && k <= pos && |m.children| == |n.children| && |m.indices| == |n.indices|
            && m.children[k] == Raise(n.children[pos])
            && m == n.(children := m.children, indices := m.indices)
  {
  }

  lemma RaisedSize(n: Node, k: nat)
    requires k < |n.children|
    ensures Size(Raise(n.children[k])) < Size(n)
  {
    ChildIsSmaller(n, k);
  }

  lemma FirstWildOfTail(path: string, i: nat)
    requires i <= FirstWild(path)
    ensures FirstWild(path[i..]) == FirstWild(path) - i
  {
    var w, tail := FirstWild(path), path[i..];
    var v := FirstWild(tail);
    assert v < |tail| ==> IsWild(path[i + v]);
    assert w < |path| ==> IsWild(tail[w - i]);
  }

  lemma UnfoldPattern(path: string)
    ensures ValidPattern(path) <==>
      FirstWild(path) == |path| || (
        var i := FirstWild(path);
        var name := WildcardName(path[i..]);
        ValidWildcard(name) && ValidPattern(path[i + |name|..]))
  {
    hide FirstWild, WildcardName, ValidWildcard, HasWild;
  }

  lemma PatternTail(path: string, i: nat)
    requires ValidPattern(path) && i <= FirstWild(path)
    ensures ValidPattern(path[i..])
  {
    hide ValidPattern, FirstWild, WildcardName, ValidWildcard;
    var w, tail := FirstWild(path), path[i..];
    FirstWildOfTail(path, i);
    UnfoldPattern(path);
    UnfoldPattern(tail);
    if w < |path| {
      assert tail[w - i..] == path[w..];
      var name := WildcardName(path[w..]);
      assert tail[w - i + |name|..] == path[w + |name|..];
    }
  }

  /** Behind a wildcard the route goes on with a slash, or ends. */
  lemma PatternAfterName(path: string, name: string)
    requires ValidPattern(path) && path != "" && IsWild(path[0]) && SameWildcard(name, path) && '/' !in name
    ensures name == WildcardName(path) && ValidWildcard(name) && ValidPattern(path[|name|..])
    ensures |name| < |path| ==> path[|name|] == '/'
  {
    hide ValidPattern, FirstWild, ValidWildcard, WildcardName, HasWild;
    NameIsWhole(path, name);
    FrontIsWild(path);
    UnfoldPattern(path);
    assert path[0..] == path;
  }

  lemma FrontIsWild(path: string)
    requires path != "" && IsWild(path[0])
    ensures FirstWild(path) == 0
  {
  }

  lemma NameIsWhole(path: string, name: string)
    requires path != "" && IsWild(path[0]) && SameWildcard(name, path) && '/' !in name
    ensures name == WildcardName(path)
  {
    var e := SegmentEnd(path);
    assert name == path[..|name|];
    forall j | 0 <= j < |name|
      ensures path[j] != '/'
    {
      assert name[j] in name;
    }
  }

  lemma CommonPrefix(a: string, b: string)
    ensures forall j | 0 <= j < LongestCommonPrefix(a, b) :: a[j] == b[j]
    ensures b <= a ==> LongestCommonPrefix(a, b) == |b|
  {
    var i := LongestCommonPrefix(a, b);
    forall j | 0 <= j < i
      ensures a[j] == b[j]
    {
      assert a[..i][j] == b[..i][j];
    }
  }

  /** In a node without wildcards the common prefix ends before the route's first one. */
  lemma PrefixBeforeWild(path: string, n: Node)
    requires !HasWild(n.path)
    ensures LongestCommonPrefix(path, n.path) <= FirstWild(path)
  {
    CommonPrefix(path, n.path);
    forall j | 0 <= j < LongestCommonPrefix(path, n.path)
      ensures !IsWild(path[j])
    {
      assert path[j] == n.path[j];
    }
  }

  /** A node the walk stands at on a wildcard matches it whole. */
  lemma ParamMatches(n: Node, path: string)
    requires MayWalk(n, path) && n.kind == Param
    ensures LongestCommonPrefix(path, n.path) == |n.path|
    ensures ValidPattern(path[|n.path|..])
    ensures |n.path| < |path| ==> path[|n.path|] == '/'
  {
    assert GoodParam(n);
    assert n.path[0] == path[0];
    PatternAfterName(path, n.path);
    CommonPrefix(path, n.path);
  }

  /** What is left of the route behind the common prefix is a valid pattern. */
  lemma RestIsValid(n: Node, path: string)
    requires MayWalk(n, path)
    ensures ValidPattern(path[LongestCommonPrefix(path, n.path)..])
  {
    if n.kind == Param {
      ParamMatches(n, path);
    } else {
      PrefixBeforeWild(path, n);
      PatternTail(path, LongestCommonPrefix(path, n.path));
    }
  }

  /** Down into the only child of a parameter. */
  lemma MayWalkParam(n: Node, path: string)
    requires MayWalk(n, path) && n.kind == Param && |n.path| < |path| && |n.children| == 1
    ensures LongestCommonPrefix(path, n.path) == |n.path|
    ensures MayWalk(Raise(n.children[0]), path[|n.path|..])
  {
    ParamMatches(n, path);
    RaiseKeepsGood(n.children[0]);
  }

  lemma RaiseKeepsGood(n: Node)
    ensures Good(Raise(n)) <==> Good(n)
  {
  }

  /** Down into the child the index names. */
  lemma MayWalkIndexed(n: Node, path: string)
    requires MayWalk(n, path) && n.kind != Param && LongestCommonPrefix(path, n.path) == |n.path| < |path|
    requires IndexOf(n.indices, path[|n.path|]) < |n.indices|
    ensures |n.indices| <= |n.children|
    ensures MayWalk(Raise(n.children[IndexOf(n.indices, path[|n.path|])]), path[|n.path|..])
  {
    RestIsValid(n, path);
    var pos := IndexOf(n.indices, path[|n.path|]);
    var child := n.children[pos];
    assert Statics(n)[pos] == child;
    RaiseKeepsGood(child);
  }

  /** Down into the wildcard child. */
  lemma MayWalkWild(n: Node, path: string)
    requires MayWalk(n, path) && n.kind != Param && LongestCommonPrefix(path, n.path) == |n.path| < |path| && n.wildChild
    ensures n.children != []
    ensures var last := n.children[|n.children| - 1];
            SameWildcard(last.path, path[|n.path|..]) ==> MayWalk(Raise(last), path[|n.path|..])
  {
    RestIsValid(n, path);
    RaiseKeepsGood(n.children[|n.children| - 1]);
  }

  /** Never more index characters than children. */
  lemma IndicesAndChildren(n: Node)
    requires Good(n)
    ensures |n.indices| <= |n.children|
  {
  }

  /**
   The walk of `add_route`: `path` is what is left of the route at this node, `at` how much
   of the tree the walk believes to have passed.
   */
  function Walk(n: Node, path: string, full: string, at: nat, h: Handler): (Node, bool)
    requires MayWalk(n, path) && at + |path| <= |full|
    decreases Size(n)
  {
    var i := LongestCommonPrefix(path, n.path);
    if i < |n.path| then
      var m := Split(n, i, full[at + i..]);
      if i < |path| then Grow(m, path[i..], full, h) else Place(m, full, h)
    else if i == |path| then
      Place(n, full, h)
    else
      IndicesAndChildren(n);
      Descend(n, path, full, at, h)
  }

  /** The node's path is passed, and something of the route is left. */
  function Descend(n: Node, path: string, full: string, at: nat, h: Handler): (Node, bool)
    requires MayWalk(n, path) && at + |path| <= |full|
    requires LongestCommonPrefix(path, n.path) == |n.path| < |path|
    requires |n.indices| <= |n.children|
    decreases Size(n), 0
  {
    var rest := path[|n.path|..];
    if n.kind == Param && rest[0] == '/' && |n.children| == 1 then
      RaisedSize(n, 0);
      MayWalkParam(n, path);
      var (child, ok) := Walk(Raise(n.children[0]), rest, full, at + |n.path|, h);
      (n.(children := [child]), ok)
    else if IndexOf(n.indices, rest[0]) < |n.indices| then
      var pos := IndexOf(n.indices, rest[0]);
      var (m, k) := IncrementChildPrio(n, pos);
      RaisedChild(n, pos);
      RaisedSize(n, pos);
      OnlyOneWay(n, path);
      MayWalkIndexed(n, path);
      var (child, ok) := Walk(m.children[k], rest, full, at + |n.path|, h);
      (m.(children := m.children[k := child]), ok)
    else if rest[0] == ':' && n.wildChild then
      OnlyOneWay(n, path);
      MayWalkWild(n, path);
      var last := |n.children| - 1;
      RaisedSize(n, last);
      var wild := Raise(n.children[last]);
      if SameWildcard(wild.path, rest) then
        var (child, ok) := Walk(wild, rest, full, at, h);
        (n.(children := n.children[last := child]), ok)
      else
        (n.(children := n.children[last := wild]), false)
    else
      Grow(n, rest, full, h)
  }

  /** Behind a parameter only its one child can go on. */
  lemma OnlyOneWay(n: Node, path: string)
    requires MayWalk(n, path) && LongestCommonPrefix(path, n.path) == |n.path| < |path|
    ensures n.kind == Param ==> path[|n.path|] == '/' && !n.wildChild && (|n.children| == 1 || n.indices == "")
  {
    if n.kind == Param {
      ParamMatches(n, path);
    }
  }

  /** The route goes on where no child continues it. */
  function Grow(n: Node, rest: string, full: string, h: Handler): (Node, bool)
    requires rest != "" && |n.indices| <= |n.children|
  {
    if rest[0] == ':' then InsertChild(n, rest, full, h)
    else
      var m := AddChild(n.(indices := n.indices + [rest[0]]), NEW_NODE.(fullPath := full));
      var (r, k) := IncrementChildPrio(m, |m.indices| - 1);
      RaisedChild(m, |m.indices| - 1);
      var (child, ok) := InsertChild(r.children[k], rest, full, h);
      (r.(children := r.children[k := child]), ok)
  }

  /** The route ends at this node. */
  function Place(n: Node, full: string, h: Handler): (Node, bool) {
    if n.handler.Some? then (n, false) else (n.(handler := Some(h), fullPath := full), true)
  }

  /** Before its first route the root is the node the constructor makes; no route is empty. */
  predicate GoodRoot(root: Node) {
    root == NEW_NODE || (root.kind == Root && Good(root) && (root.path == "" ==> root.handler == None))
  }

  /** `add_route`. */
  function Add(root: Node, path: string, h: Handler): (Node, bool)
    requires GoodRoot(root) && path != "" && ValidPattern(path)
  {
    var n := Raise(root).(kind := Root);
    if n.path == "" && n.children == [] then InsertChild(n, path, path, h)
    else Walk(n, path, path, 0, h)
  }
}
