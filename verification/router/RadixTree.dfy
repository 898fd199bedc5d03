/**
 The radix tree as it is built: nodes on the heap, whose fields and lists of children are
 changed in place.
 */
module RadixTree {
  import opened RouteTree
  import opened RouteTable

  class TreeNode {
    var path: string
    var indices: string
    var wildChild: bool
    var kind: Kind
    var priority: nat
    var children: seq<TreeNode>
    var handler: Option<Handler>
    var fullPath: string

    /** The nodes of the tree below, with this one. */
    ghost var Repr: set<object>

    /** The tree as a value. */
    ghost var Tree: Node

    /** The value is the value of the fields. */
    ghost predicate Shown()
      reads this, children
    {
      && Tree == Node(path, indices, wildChild, kind, priority, Tree.children, handler, fullPath)
      && |Tree.children| == |children|
      && forall i | 0 <= i < |children| :: Tree.children[i] == children[i].Tree
    }

    /** The subtrees of the children are apart from each other and from this node. */
    ghost predicate Valid()
      reads this, Repr
      decreases Repr
    {
      && this in Repr
      && (forall i | 0 <= i < |children| ::
            children[i] in Repr && children[i].Repr < Repr && this !in children[i].Repr && children[i].Valid())
      && (forall i, j | 0 <= i < j < |children| :: children[i].Repr !! children[j].Repr)
      && Shown()
    }

    /** A node with nothing in it, as `make_shared<node>()` makes it. */
    constructor ()
      ensures Valid() && fresh(Repr) && Tree == NEW_NODE
    {
      path, indices, wildChild, kind, priority, children, handler, fullPath := "", "", false, Static, 0, [], None, "";
      Repr, Tree := {this}, NEW_NODE;
    }

    /** A copy of `n` with the rest of its path, which takes over its children. */
    constructor Lower(n: TreeNode, i: nat)
      requires n.Valid() && i < |n.path| && n.priority > 0
      ensures fresh(this) && Repr == n.Repr - {n} + {this} && Valid()
      ensures Tree == n.Tree.(path := n.path[i..], kind := Static, priority := n.priority - 1)
    {
      path, indices, wildChild, kind, priority := n.path[i..], n.indices, n.wildChild, Static, n.priority - 1;
      children, handler, fullPath := n.children, n.handler, n.fullPath;
      Repr := n.Repr - {n} + {this};
      Tree := n.Tree.(path := n.path[i..], kind := Static, priority := n.priority - 1);
    }

    /** Splits the edge to this node: its lower part becomes a new only child. */
    method SplitEdge(i: nat, up: string)
      requires Valid() && i < |path| && priority > 0
      modifies this
      ensures Valid() && fresh(Repr - old(Repr)) && old(Repr) <= Repr
      ensures Tree == Split(old(Tree), i, up)
    {
      var child := new TreeNode.Lower(this, i);
      children := [child];
      indices := [path[i]];
      path := path[..i];
      handler := None;
      wildChild := false;
      fullPath := up;
      Repr := Repr + {child};
      Tree := Split(Tree, i, up);
    }

    /** `add_child`: the wildcard child stays last. */
    method AddNode(child: TreeNode)
      requires Valid() && child.Valid() && child.Repr !! Repr
      modifies this
      ensures Valid() && Repr == old(Repr) + child.Repr
      ensures Tree == AddChild(old(Tree), child.Tree)
    {
      if wildChild && |children| > 0 {
        children := children[..|children| - 1] + [child, children[|children| - 1]];
      } else {
        children := children + [child];
      }
      Repr := Repr + child.Repr;
      Tree := AddChild(Tree, child.Tree);
    }

    /** The priority of the node grows. */
    method RaiseThis()
      requires Valid()
      modifies this`priority, this`Tree
      ensures Valid() && priority == old(priority) + 1 && Tree == Raise(old(Tree))
    {
      priority := priority + 1;
      Tree := Raise(Tree);
    }

    /** The priority of the child at `pos` grows. */
    method Count(pos: nat)
      requires Valid() && pos < |children|
      modifies this, children[pos]
      ensures Valid() && Repr == old(Repr) && children == old(children) && pos < |old(Tree).children|
      ensures children[pos].priority == old(children[pos].priority) + 1
      ensures Tree == old(Tree).(children := old(Tree).children[pos := Raise(old(Tree).children[pos])])
    {
      ChildShown(pos);
      hide *;
      children[pos].RaiseThis();
      ChildChanged(pos);
      TakeIn(pos);
    }

    /** Two neighbours change places. */
    method SwapWithNext(i: nat)
      requires Valid() && i + 1 < |children|
      modifies this`children, this`Tree
      ensures Valid()
      ensures children == old(children)[i := old(children)[i + 1]][i + 1 := old(children)[i]]
      ensures Tree == old(Tree).(children :=
                old(Tree).children[i := old(Tree).children[i + 1]][i + 1 := old(Tree).children[i]])
    {
      var a, b := children[i], children[i + 1];
      children := children[i := b][i + 1 := a];
      Tree := Tree.(children := Tree.children[i := b.Tree][i + 1 := a.Tree]);
    }

    /** The fields of a child are those of its value. */
    lemma ChildShown(i: nat)
      requires Valid() && i < |children|
      ensures |Tree.children| == |children| && children[i] in Repr && children[i].Valid()
      ensures Tree.children[i] == children[i].Tree && Tree.children[i].priority == children[i].priority
      ensures Tree.indices == indices
    {
    }

    /** The child at `pos` moves forward past those of lower priority. */
    method MoveUp(pos: nat) returns (k: nat)
      requires Valid() && pos < |children|
      modifies this`children, this`Tree
      ensures Valid() && |old(Tree).children| == |old(children)|
      ensures k == NewPosition(old(Tree).children, pos, old(Tree).children[pos].priority) <= pos
      ensures children == MoveForward(old(children), pos, k)
      ensures Tree == old(Tree).(children := MoveForward(old(Tree).children, pos, k))
    {
      hide *;
      ChildShown(pos);
      ghost var was, cs := children, Tree.children;
      ghost var prio := cs[pos].priority;
      k := pos;
      MoveNowhere(was, pos);
      MoveNowhere(cs, pos);
      MovedFirst(cs, pos, k);
      while k > 0 && children[k - 1].priority < children[k].priority
        invariant k <= pos < |cs| == |was| && Valid()
        invariant children == MoveForward(was, pos, k)
        invariant Tree == old(Tree).(children := MoveForward(cs, pos, k))
        invariant MoveForward(cs, pos, k)[k] == cs[pos]
        invariant NewPosition(cs, k, prio) == NewPosition(cs, pos, prio)
      {
        ChildShown(k - 1);
        ChildShown(k);
        MovedBefore(cs, pos, k);
        NewPositionStep(cs, k, prio);
        SwapMoves(was, pos, k);
        SwapMoves(cs, pos, k);
        MovedFirst(cs, pos, k - 1);
        SwapWithNext(k - 1);
        k := k - 1;
      }
      ChildShown(k);
      if k > 0 {
        ChildShown(k - 1);
        MovedBefore(cs, pos, k);
      }
      NewPositionEnd(cs, k, prio);
    }

    /** `increment_child_prio`. */
    method RaiseChild(pos: nat) returns (k: nat)
      requires Valid() && pos < |children| && pos < |indices|
      modifies this, children[pos]
      ensures Valid() && Repr == old(Repr)
      ensures (Tree, k) == IncrementChildPrio(old(Tree), pos)
      ensures k < |children| && children[k] == old(children[pos])
    {
      ChildShown(pos);
      hide Valid, MoveForward, Shown, NewPosition;
      Count(pos);
      ChildShown(pos);
      ghost var was := children;
      k := MoveUp(pos);
      MovedFirst(was, pos, k);
      if k != pos {
        SetIndices(MoveForward(indices, pos, k));
      } else {
        MoveNowhere(indices, pos);
      }
    }

    method SetIndices(s: string)
      requires Valid()
      modifies this`indices, this`Tree
      ensures Valid() && indices == s && Tree == old(Tree).(indices := s)
    {
      indices := s;
      Tree := Tree.(indices := s);
    }

    method SetPath(s: string)
      requires Valid()
      modifies this`path, this`Tree
      ensures Valid() && Tree == old(Tree).(path := s)
    {
      path := s;
      Tree := Tree.(path := s);
    }

    method SetRoute(h: Handler, full: string)
      requires Valid()
      modifies this`handler, this`fullPath, this`Tree
      ensures Valid() && Tree == old(Tree).(handler := Some(h), fullPath := full)
    {
      handler, fullPath := Some(h), full;
      Tree := Tree.(handler := Some(h), fullPath := full);
    }

    method MakeRoot()
      requires Valid()
      modifies this`kind, this`Tree
      ensures Valid() && Tree == old(Tree).(kind := Root)
    {
      kind := Root;
      Tree := Tree.(kind := Root);
    }

    method SetWildChild()
      requires Valid()
      modifies this`wildChild, this`Tree
      ensures Valid() && Tree == old(Tree).(wildChild := true)
    {
      wildChild := true;
      Tree := Tree.(wildChild := true);
    }

    /** A node as `insert_child` and `add_route` make them for a route. */
    constructor For(path: string, kind: Kind, priority: nat, full: string)
      ensures Valid() && fresh(Repr)
      ensures Tree == NEW_NODE.(path := path, kind := kind, priority := priority, fullPath := full)
    {
      this.path, indices, wildChild, this.kind, this.priority := path, "", false, kind, priority;
      children, handler, fullPath := [], None, full;
      Repr := {this};
      Tree := NEW_NODE.(path := path, kind := kind, priority := priority, fullPath := full);
    }

    /** The node of a wildcard, with the rest of its route below it. */
    static method NewParam(name: string, rest: string, full: string, h: Handler) returns (param: TreeNode, ok: bool)
      ensures param.Valid() && fresh(param) && fresh(param.Repr)
      ensures (param.Tree, ok) == ParamFor(name, rest, full, h)
      decreases |rest|, 1
    {
      ParamForm(name, rest, full, h);
      hide *;
      param := new TreeNode.For(name, Param, 1, full);
      if rest == "" {
        param.SetRoute(h, full);
        ok := true;
      } else {
        var sub := new TreeNode.For("", Static, 1, full);
        ok := sub.Insert(rest, full, h);
        param.AddNode(sub);
      }
    }

    /** `insert_child`: the nodes of a route below this one. */
    method Insert(path: string, full: string, h: Handler) returns (ok: bool)
      requires Valid()
      modifies this
      ensures Valid() && fresh(Repr - old(Repr)) && old(Repr) <= Repr
      ensures (Tree, ok) == InsertChild(old(Tree), path, full, h)
      decreases |path|, 0
    {
      hide *;
      var i := FirstWild(path);
      InsertForm(Tree, path, full, h);
      if i == |path| {
        SetPath(path);
        SetRoute(h, full);
        return true;
      }
      var name := WildcardName(path[i..]);
      if !ValidWildcard(name) {
        return false;
      }
      if i > 0 {
        SetPath(path[..i]);
      }
      var param: TreeNode;
      param, ok := NewParam(name, path[i + |name|..], full, h);
      AddNode(param);
      SetWildChild();
    }

    /** The route ends here. */
    method PlaceRoute(full: string, h: Handler) returns (ok: bool)
      requires Valid()
      modifies this
      ensures Valid() && Repr == old(Repr)
      ensures (Tree, ok) == Place(old(Tree), full, h)
    {
      if handler.Some? {
        return false;
      }
      SetRoute(h, full);
      ok := true;
    }

    /** `Valid`, but for what hangs on the child at `k` having changed. */
    ghost predicate ValidBut(k: nat)
      requires k < |children|
      reads this, Repr, children, children[k].Repr
    {
      && this in Repr && children[k].Valid() && this !in children[k].Repr
      && (forall i | 0 <= i < |children| && i != k ::
            children[i] in Repr && children[i].Repr < Repr && this !in children[i].Repr && children[i].Valid())
      && (forall i | 0 <= i < |children| && i != k :: children[i].Repr !! children[k].Repr)
      && (forall i, j | 0 <= i < j < |children| && i != k && j != k :: children[i].Repr !! children[j].Repr)
      && Tree == Node(path, indices, wildChild, kind, priority, Tree.children, handler, fullPath)
      && |Tree.children| == |children|
      && forall i | 0 <= i < |children| && i != k :: Tree.children[i] == children[i].Tree
    }

    /** The child at `k` has changed, and nothing else. */
    twostate lemma ChildChanged(k: nat)
      requires old(Valid()) && k < |old(children)| && unchanged(this)
      requires forall o | o in old(Repr) && o !in old(children[k].Repr) :: unchanged(o)
      requires children[k].Valid() && fresh(children[k].Repr - old(children[k].Repr))
      ensures ValidBut(k)
    {
    }

    /** The node takes in what has changed below its child at `k`. */
    ghost method TakeIn(k: nat)
      requires k < |children| && ValidBut(k)
      modifies this`Repr, this`Tree
      ensures Valid() && Repr == old(Repr) + children[k].Repr && |Tree.children| == |children|
      ensures Tree == old(Tree).(children := old(Tree).children[k := children[k].Tree])
    {
      Repr := Repr + children[k].Repr;
      Tree := Tree.(children := Tree.children[k := children[k].Tree]);
    }

    /** The child at `k`, a new node, takes the rest of the route. */
    method InsertInto(k: nat, rest: string, full: string, h: Handler) returns (ok: bool)
      requires Valid() && k < |children|
      modifies Repr
      ensures Valid() && fresh(Repr - old(Repr)) && old(Repr) <= Repr
      ensures k < |old(Tree).children|
      ensures var (child, r) := InsertChild(old(Tree).children[k], rest, full, h);
              ok == r && Tree == old(Tree).(children := old(Tree).children[k := child])
    {
      ChildShown(k);
      hide *;
      ok := children[k].Insert(rest, full, h);
      ChildChanged(k);
      TakeIn(k);
    }

    /** A child for a route that no child continues. */
    method GrowChild(rest: string, full: string, h: Handler) returns (ok: bool)
      requires Valid() && rest != "" && |indices| <= |children|
      modifies Repr
      ensures Valid() && fresh(Repr - old(Repr)) && old(Repr) <= Repr
      ensures |old(Tree).indices| <= |old(Tree).children|
      ensures (Tree, ok) == Grow(old(Tree), rest, full, h)
    {
      hide InsertChild, IncrementChildPrio, Valid, Shown, AddChild;
      Shape();
      if rest[0] == ':' {
        ok := Insert(rest, full, h);
        return;
      }
      SetIndices(indices + [rest[0]]);
      var child := new TreeNode.For("", Static, 0, full);
      Shape();
      AddedOne(Tree, child.Tree);
      AddNode(child);
      Shape();
      var k := RaiseChild(|indices| - 1);
      ok := InsertInto(k, rest, full, h);
    }

    /** The walk goes on at the child at `k`. */
    method WalkInto(k: nat, rest: string, full: string, at: nat, h: Handler) returns (ok: bool)
      requires Valid() && k < |children| == |Tree.children|
      requires MayWalk(Tree.children[k], rest) && at + |rest| <= |full|
      modifies Repr
      ensures Valid() && fresh(Repr - old(Repr)) && old(Repr) <= Repr
      ensures var (child, r) := RouteTree.Walk(old(Tree).children[k], rest, full, at, h);
              ok == r && Tree == old(Tree).(children := old(Tree).children[k := child])
      decreases Size(Tree.children[k]), 2
    {
      ChildShown(k);
      ChildInside(k);
      hide *;
      ok := children[k].Walk(rest, full, at, h);
      ChildChanged(k);
      TakeIn(k);
    }

    /** `add_route` from this node on: `path` is what is left of the route. */
    method Walk(path: string, full: string, at: nat, h: Handler) returns (ok: bool)
      requires Valid() && MayWalk(Tree, path) && at + |path| <= |full|
      modifies Repr
      ensures Valid() && fresh(Repr - old(Repr)) && old(Repr) <= Repr
      ensures (Tree, ok) == RouteTree.Walk(old(Tree), path, full, at, h)
      decreases Size(Tree), 1
    {
      hide *;
      Shape();
      var i := CommonPrefixOf(path, this.path);
      WalkStep(Tree, path, full, at, h);
      if i < |this.path| {
        SplitShape(Tree, i, full[at + i..]);
        SplitEdge(i, full[at + i..]);
        Shape();
        if i < |path| {
          ok := GrowChild(path[i..], full, h);
        } else {
          ok := PlaceRoute(full, h);
        }
      } else if i == |path| {
        ok := PlaceRoute(full, h);
      } else {
        ok := Pass(path, full, at, h);
      }
    }

    /** The path of this node is passed, and something of the route is left. */
    method Pass(path: string, full: string, at: nat, h: Handler) returns (ok: bool)
      requires Valid() && MayWalk(Tree, path) && at + |path| <= |full|
      requires LongestCommonPrefix(path, Tree.path) == |Tree.path| < |path| && |Tree.indices| <= |Tree.children|
      modifies Repr
      ensures Valid() && fresh(Repr - old(Repr)) && old(Repr) <= Repr
      ensures (Tree, ok) == Descend(old(Tree), path, full, at, h)
      decreases Size(Tree), 0
    {
      hide *;
      Shape();
      DescendStep(Tree, path, full, at, h);
      var rest := path[|this.path|..];
      if kind == Param && rest[0] == '/' && |children| == 1 {
        var deeper := at + |this.path|;
        Count(0);
        Shape();
        ok := WalkInto(0, rest, full, deeper, h);
        return;
      }
      var pos := PositionOf(indices, rest[0]);
      if pos < |indices| {
        var deeper := at + |this.path|;
        var k := RaiseChild(pos);
        Shape();
        ok := WalkInto(k, rest, full, deeper, h);
      } else if rest[0] == ':' && wildChild {
        ok := PassWild(rest, full, at, h);
      } else {
        ok := GrowChild(rest, full, h);
      }
    }

    /** The route goes on with a wildcard where the node has one. */
    method PassWild(rest: string, full: string, at: nat, h: Handler) returns (ok: bool)
      requires Valid() && |children| > 0 && |Tree.children| == |children| && at + |rest| <= |full|
      requires var wild := Raise(Tree.children[|children| - 1]);
               SameWildcard(wild.path, rest) ==> MayWalk(wild, rest)
      modifies Repr
      ensures Valid() && fresh(Repr - old(Repr)) && old(Repr) <= Repr
      ensures var last := |old(Tree).children| - 1;
              var wild := Raise(old(Tree).children[last]);
              var (child, r) := if SameWildcard(wild.path, rest) then RouteTree.Walk(wild, rest, full, at, h) else (wild, false);
              ok == r && Tree == old(Tree).(children := old(Tree).children[last := child])
      decreases Size(Raise(Tree.children[|children| - 1])), 3
    {
      hide *;
      Shape();
      var last := |children| - 1;
      Count(last);
      Shape();
      ChildShown(last);
      children[last].Shape();
      if !SameWildcard(children[last].path, rest) {
        return false;
      }
      ok := WalkInto(last, rest, full, at, h);
    }

    /** The tree below, read as a value. */
    method Read() returns (n: Node)
      requires Valid()
      ensures n == Tree
      decreases Repr
    {
      var cs: seq<Node> := [];
      var i := 0;
      while i < |children|
        invariant i <= |children| && cs == Tree.children[..i]
      {
        ChildShown(i);
        var c := children[i].Read();
        cs := cs + [c];
        i := i + 1;
      }
      n := Node(path, indices, wildChild, kind, priority, cs, handler, fullPath);
    }

    lemma ChildInside(k: nat)
      requires Valid() && k < |children|
      ensures children[k] in Repr && children[k].Repr <= Repr && this !in children[k].Repr
    {
    }

    lemma Shape()
      requires Valid()
      ensures this in Repr && |Tree.children| == |children| && Tree.indices == indices && Tree.path == path
      ensures Tree.kind == kind && Tree.wildChild == wildChild && Tree.handler == handler && Tree.priority == priority
      ensures forall i | 0 <= i < |children| :: children[i] in Repr
    {
    }
  }

  /** The length of what two strings have in common at the front. */
  method CommonPrefixOf(a: string, b: string) returns (i: nat)
    ensures i == LongestCommonPrefix(a, b)
  {
    i := 0;
    assert a[0..] == a && b[0..] == b;
    while i < |a| && i < |b| && a[i] == b[i]
      invariant i <= |a| && i <= |b|
      invariant LongestCommonPrefix(a, b) == i + LongestCommonPrefix(a[i..], b[i..])
    {
      assert a[i..][1..] == a[i + 1..] && b[i..][1..] == b[i + 1..];
      i := i + 1;
    }
  }

  /** Where a character stands first, or the length. */
  method PositionOf(s: string, c: char) returns (i: nat)
    ensures i == IndexOf(s, c)
  {
    i := 0;
    assert s[0..] == s;
    while i < |s| && s[i] != c
      invariant i <= |s|
      invariant IndexOf(s, c) == i + IndexOf(s[i..], c)
    {
      assert s[i..][1..] == s[i + 1..];
      i := i + 1;
    }
  }

  lemma WalkStep(n: Node, path: string, full: string, at: nat, h: Handler)
    requires MayWalk(n, path) && at + |path| <= |full|
    ensures |n.indices| <= |n.children| && n.priority > 0
    ensures
      var i := LongestCommonPrefix(path, n.path);
      if i < |n.path| then
        RouteTree.Walk(n, path, full, at, h) ==
          if i < |path| then Grow(Split(n, i, full[at + i..]), path[i..], full, h)
          else Place(Split(n, i, full[at + i..]), full, h)
      else if i == |path| then RouteTree.Walk(n, path, full, at, h) == Place(n, full, h)
      else RouteTree.Walk(n, path, full, at, h) == Descend(n, path, full, at, h)
  {
    IndicesAndChildren(n);
    hide Good, LongestCommonPrefix, Split, Grow, Place, Descend;
  }

  lemma SplitShape(n: Node, i: nat, up: string)
    requires i < |n.path| && n.priority > 0
    ensures |Split(n, i, up).indices| <= |Split(n, i, up).children|
  {
  }

  /** What passing a node comes to, case by case. */
  lemma DescendStep(n: Node, path: string, full: string, at: nat, h: Handler)
    requires MayWalk(n, path) && at + |path| <= |full|
    requires LongestCommonPrefix(path, n.path) == |n.path| < |path| && |n.indices| <= |n.children|
    ensures
      var rest := path[|n.path|..];
      var pos := IndexOf(n.indices, rest[0]);
      if n.kind == Param && rest[0] == '/' && |n.children| == 1 then
        var m := n.(children := n.children[0 := Raise(n.children[0])]);
        && Size(m.children[0]) < Size(n) && MayWalk(m.children[0], rest)
        && var (child, ok) := RouteTree.Walk(m.children[0], rest, full, at + |n.path|, h);
           Descend(n, path, full, at, h) == (m.(children := m.children[0 := child]), ok)
      else if pos < |n.indices| then
        var (m, k) := IncrementChildPrio(n, pos);
        && k < |m.children| && Size(m.children[k]) < Size(n) && MayWalk(m.children[k], rest)
        && var (child, ok) := RouteTree.Walk(m.children[k], rest, full, at + |n.path|, h);
           Descend(n, path, full, at, h) == (m.(children := m.children[k := child]), ok)
      else if rest[0] == ':' && n.wildChild then
        var last := |n.children| - 1;
        && last >= 0
        && var wild := Raise(n.children[last]);
        && Size(wild) < Size(n) && (SameWildcard(wild.path, rest) ==> MayWalk(wild, rest))
        && var (child, ok) := if SameWildcard(wild.path, rest) then RouteTree.Walk(wild, rest, full, at, h) else (wild, false);
           Descend(n, path, full, at, h) == (n.(children := n.children[last := child]), ok)
      else Descend(n, path, full, at, h) == Grow(n, rest, full, h)
  {
    hide MayWalk, RouteTree.Walk, Grow, IncrementChildPrio, LongestCommonPrefix, IndexOf, SameWildcard, Size, Raise;
    var pos, c := IndexOf(n.indices, path[|n.path|]), path[|n.path|];
    OnlyOneWay(n, path);
    if n.kind == Param && c == '/' && |n.children| == 1 {
      RaisedSize(n, 0);
      MayWalkParam(n, path);
      var m := n.(children := n.children[0 := Raise(n.children[0])]);
      var child := RouteTree.Walk(m.children[0], path[|n.path|..], full, at + |n.path|, h).0;
      assert m.(children := m.children[0 := child]) == n.(children := [child]);
    } else if pos < |n.indices| {
      RaisedChild(n, pos);
      RaisedSize(n, pos);
      MayWalkIndexed(n, path);
    } else if c == ':' && n.wildChild {
      MayWalkWild(n, path);
      RaisedSize(n, |n.children| - 1);
      RaisedPath(n.children[|n.children| - 1]);
    }
  }

  lemma RaisedPath(n: Node)
    ensures Raise(n).path == n.path
  {
  }

  /** The node of a wildcard and those below it. */
  function ParamFor(name: string, rest: string, full: string, h: Handler): (Node, bool) {
    var param := NEW_NODE.(path := name, kind := Param, priority := 1, fullPath := full);
    if rest == "" then (param.(handler := Some(h)), true)
    else
      var (sub, ok) := InsertChild(NEW_NODE.(priority := 1, fullPath := full), rest, full, h);
      (AddChild(param, sub), ok)
  }

  lemma ParamForm(name: string, rest: string, full: string, h: Handler)
    ensures NEW_NODE.path == "" && NEW_NODE.kind == Static
    ensures var param := NEW_NODE.(path := name, kind := Param, priority := 1, fullPath := full);
            ParamFor(name, rest, full, h) ==
              if rest == "" then (param.(handler := Some(h)), true)
              else
                var (sub, ok) := InsertChild(NEW_NODE.(priority := 1, fullPath := full), rest, full, h);
                (AddChild(param, sub), ok)
  {
  }

  lemma InsertForm(n: Node, path: string, full: string, h: Handler)
    ensures InsertChild(n, path, full, h) == (
      var i := FirstWild(path);
      if i == |path| then (n.(path := path, handler := Some(h), fullPath := full), true)
      else
        var name := WildcardName(path[i..]);
        if !ValidWildcard(name) then (n, false)
        else
          var (param, ok) := ParamFor(name, path[i + |name|..], full, h);
          (AddChild(if i > 0 then n.(path := path[..i]) else n, param).(wildChild := true), ok))
  {
    hide AddChild, FirstWild, WildcardName, ValidWildcard;
  }

  lemma AddedOne(n: Node, child: Node)
    ensures |AddChild(n, child).children| == |n.children| + 1 && AddChild(n, child).indices == n.indices
  {
  }

  lemma MoveNowhere<T>(s: seq<T>, k: nat)
    requires k < |s|
    ensures MoveForward(s, k, k) == s
  {
  }

  /** One place further. */
  lemma SwapMoves<T>(s: seq<T>, pos: nat, k: nat)
    requires 0 < k <= pos < |s|
    ensures var m := MoveForward(s, pos, k); MoveForward(s, pos, k - 1) == m[k - 1 := m[k]][k := m[k - 1]]
  {
  }

  lemma MovedBefore<T>(s: seq<T>, pos: nat, k: nat)
    requires 0 < k <= pos < |s|
    ensures MoveForward(s, pos, k)[k - 1] == s[k - 1] && MoveForward(s, pos, k)[k] == s[pos]
  {
  }

  lemma MovedFirst<T>(s: seq<T>, pos: nat, k: nat)
    requires k <= pos < |s|
    ensures MoveForward(s, pos, k)[k] == s[pos]
  {
  }

  lemma NewPositionStep(cs: seq<Node>, k: nat, prio: nat)
    requires 0 < k <= |cs| && cs[k - 1].priority < prio
    ensures NewPosition(cs, k, prio) == NewPosition(cs, k - 1, prio)
  {
  }

  lemma NewPositionEnd(cs: seq<Node>, k: nat, prio: nat)
    requires k <= |cs| && (k > 0 ==> cs[k - 1].priority >= prio)
    ensures NewPosition(cs, k, prio) == k
  {
  }
}
