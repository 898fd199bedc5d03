/**
 The table of routes a tree stands for, and the tree's shape through its operations.
 */
module RouteTable {
  import opened RouteTree

  /** The child whose path begins with `c`; their number if there is none. */
  function ChildFor(cs: seq<Node>, c: char): (k: nat)
    ensures k <= |cs|
    ensures k < |cs| ==> cs[k].path != "" && cs[k].path[0] == c
    ensures forall j | 0 <= j < k :: cs[j].path == "" || cs[j].path[0] != c
  {
    if cs == [] || (cs[0].path != "" && cs[0].path[0] == c) then 0 else 1 + ChildFor(cs[1..], c)
  }

  /** The handler registered under a route: wildcards are names, matched as they are written. */
  function Routed(n: Node, route: string): Option<Handler>
    decreases n
  {
    if n.path == route then n.handler
    else if |n.path| < |route| && n.path <= route then
      var rest := route[|n.path|..];
      var k := ChildFor(n.children, rest[0]);
      if k < |n.children| then Routed(n.children[k], rest) else None
    else None
  }

  /** What the children are routed to. */
  function RoutedIn(cs: seq<Node>, route: string): Option<Handler>
    requires route != ""
  {
    var k := ChildFor(cs, route[0]);
    if k < |cs| then Routed(cs[k], route) else None
  }

  lemma RoutedHere(n: Node, route: string)
    ensures Routed(n, route) ==
      if n.path == route then n.handler
      else if |n.path| < |route| && n.path <= route then RoutedIn(n.children, route[|n.path|..])
      else None
  {
  }

  /** The children's paths are not empty and begin differently. */
  predicate Heads(cs: seq<Node>) {
    && (forall i | 0 <= i < |cs| :: cs[i].path != "")
    && (forall i, j | 0 <= i < j < |cs| :: cs[i].path[0] != cs[j].path[0])
  }

  lemma HeadIsFound(cs: seq<Node>, k: nat)
    requires Heads(cs) && k < |cs|
    ensures ChildFor(cs, cs[k].path[0]) == k
  {
  }

  lemma NoChild(cs: seq<Node>, c: char)
    requires forall i | 0 <= i < |cs| :: cs[i].path == "" || cs[i].path[0] != c
    ensures ChildFor(cs, c) == |cs|
  {
  }

  /** The table `after` is `before` with one route added, if `ok`. */
  ghost predicate Extends(before: Node, after: Node, route: string, h: Handler, ok: bool) {
    && (ok ==> Routed(before, route) == None)
    && forall q :: Routed(after, q) == if ok && q == route then Some(h) else Routed(before, q)
  }

  ghost predicate ExtendsIn(before: seq<Node>, after: seq<Node>, route: string, h: Handler, ok: bool)
    requires route != ""
  {
    && (ok ==> RoutedIn(before, route) == None)
    && forall q | q != "" :: RoutedIn(after, q) == if ok && q == route then Some(h) else RoutedIn(before, q)
  }

  /** Two nodes with the same table. */
  ghost predicate SameTable(n: Node, m: Node) {
    forall q :: Routed(m, q) == Routed(n, q)
  }

  ghost predicate SameTableIn(cs: seq<Node>, ds: seq<Node>) {
    forall q | q != "" :: RoutedIn(ds, q) == RoutedIn(cs, q)
  }

  // ----- what each operation does to the table

  lemma RaiseRoutes(n: Node)
    ensures SameTable(n, Raise(n))
  {
    forall q
      ensures Routed(Raise(n), q) == Routed(n, q)
    {
      RoutedHere(n, q);
      RoutedHere(Raise(n), q);
    }
  }

  /** Splitting an edge changes no route. */
  lemma SplitRoutes(n: Node, i: nat, full: string)
    requires i < |n.path| && n.priority > 0
    ensures SameTable(n, Split(n, i, full))
  {
    var m := Split(n, i, full);
    var low := m.children[0];
    forall q
      ensures Routed(m, q) == Routed(n, q)
    {
      RoutedHere(m, q);
      RoutedHere(n, q);
      if i < |q| && m.path <= q {
        var rest := q[i..];
        RoutedHere(low, rest);
        assert n.path == m.path + low.path && q == m.path + rest;
        assert low.path == rest <==> n.path == q;
        assert low.path <= rest <==> n.path <= q;
        if n.path <= q { assert rest[|low.path|..] == q[|n.path|..]; }
        if ChildFor(m.children, rest[0]) == 1 { assert low.path[0] != rest[0]; }
      }
    }
  }

  lemma PlaceRoutes(n: Node, full: string, h: Handler)
    ensures var (m, ok) := Place(n, full, h); Extends(n, m, n.path, h, ok)
  {
    var (m, ok) := Place(n, full, h);
    forall q
      ensures Routed(m, q) == if ok && q == n.path then Some(h) else Routed(n, q)
    {
      RoutedHere(n, q);
      RoutedHere(m, q);
    }
  }

  /** A change among the children is a change of the node's table. */
  lemma ChildrenExtend(n: Node, m: Node, rest: string, h: Handler, ok: bool)
    requires m.path == n.path && m.handler == n.handler && rest != ""
    requires ExtendsIn(n.children, m.children, rest, h, ok)
    ensures Extends(n, m, n.path + rest, h, ok)
  {
    forall q
      ensures Routed(m, q) == if ok && q == n.path + rest then Some(h) else Routed(n, q)
    {
      RoutedHere(n, q);
      RoutedHere(m, q);
      if |n.path| < |q| && n.path <= q { assert q == n.path + q[|n.path|..]; }
    }
    RoutedHere(n, n.path + rest);
    assert (n.path + rest)[|n.path|..] == rest;
  }

  /** One child extends its table. */
  lemma OneChildExtends(cs: seq<Node>, k: nat, child: Node, rest: string, h: Handler, ok: bool)
    requires Heads(cs) && k < |cs| && child.path != "" && child.path[0] == cs[k].path[0]
    requires rest != "" && rest[0] == cs[k].path[0]
    requires Extends(cs[k], child, rest, h, ok)
    ensures Heads(cs[k := child]) && ExtendsIn(cs, cs[k := child], rest, h, ok)
  {
    var ds := cs[k := child];
    HeadIsFound(cs, k);
    forall q | q != ""
      ensures RoutedIn(ds, q) == if ok && q == rest then Some(h) else RoutedIn(cs, q)
    {
      var j := ChildFor(cs, q[0]);
      if j < |cs| { HeadIsFound(ds, j); }
    }
  }

  lemma FoundAs(cs: seq<Node>, c: Node)
    requires Heads(cs) && c in cs
    ensures c.path != "" && ChildFor(cs, c.path[0]) < |cs| && cs[ChildFor(cs, c.path[0])] == c
  {
    var k :| 0 <= k < |cs| && cs[k] == c;
    HeadIsFound(cs, k);
  }

  /** The child for a character, as a member. */
  lemma FoundIn(cs: seq<Node>, c: char)
    ensures ChildFor(cs, c) < |cs| ==> cs[ChildFor(cs, c)] in cs
    ensures ChildFor(cs, c) == |cs| ==> forall d | d in cs :: d.path == "" || d.path[0] != c
  {
  }

  /** The order of the children does not matter. */
  lemma OrderDoesNotMatter(cs: seq<Node>, ds: seq<Node>)
    requires Heads(cs) && Heads(ds)
    requires forall c | c in cs :: c in ds
    requires forall c | c in ds :: c in cs
    ensures SameTableIn(cs, ds)
  {
    hide Heads, ChildFor;
    forall q | q != ""
      ensures RoutedIn(ds, q) == RoutedIn(cs, q)
    {
      FoundIn(cs, q[0]);
      FoundIn(ds, q[0]);
      var j := ChildFor(cs, q[0]);
      if j < |cs| { FoundAs(ds, cs[j]); }
    }
  }

  /** A new child with a beginning of its own. */
  lemma NewChildExtends(cs: seq<Node>, ds: seq<Node>, child: Node, rest: string, h: Handler)
    requires Heads(cs) && Heads(ds) && child in ds
    requires forall c | c in cs :: c in ds
    requires forall c | c in ds :: c == child || c in cs
    requires rest != "" && child.path != "" && child.path[0] == rest[0]
    requires ChildFor(cs, rest[0]) == |cs|
    requires forall q :: Routed(child, q) == if q == rest then Some(h) else None
    ensures ExtendsIn(cs, ds, rest, h, true)
  {
    hide Heads, ChildFor;
    FoundAs(ds, child);
    forall q | q != ""
      ensures RoutedIn(ds, q) == if q == rest then Some(h) else RoutedIn(cs, q)
    {
      if q[0] != rest[0] {
        FoundIn(cs, q[0]);
        FoundIn(ds, q[0]);
        var j := ChildFor(cs, q[0]);
        if j < |cs| { FoundAs(ds, cs[j]); }
      }
    }
  }

  // ----- the shape through the operations

  lemma IndexedHeads(cs: seq<Node>, indices: string)
    requires Indexed(cs, indices)
    ensures Heads(cs)
    ensures forall i | 0 <= i < |cs| :: !IsWild(cs[i].path[0])
  {
  }

  lemma GoodHeads(n: Node)
    requires Good(n)
    ensures Heads(n.children)
  {
    hide Indexed, Good, HasWild, ValidWildcard;
    UnfoldGood(n);
    if n.kind != Param {
      var st := Statics(n);
      IndexedHeads(st, n.indices);
      if n.wildChild {
        WildHead(n.children[|n.children| - 1]);
        assert n.children == st + [n.children[|n.children| - 1]];
      }
    }
  }

  lemma UnfoldGood(n: Node)
    ensures Good(n) <==> GoodHere(n) && forall i | 0 <= i < |n.children| :: Good(n.children[i])
  {
  }

  lemma WildHead(n: Node)
    requires Good(n) && n.kind == Param
    ensures |n.path| >= 2 && n.path[0] == ':'
  {
  }

  /** What a node keeps while routes are added below it. */
  predicate Keeps(n: Node, m: Node) {
    && m.kind == n.kind && m.priority == n.priority
    && (n.kind == Static ==> IsStatic(n) && IsStatic(m) && m.path[0] == n.path[0])
    && (n.kind == Param ==> m.path == n.path)
  }

  lemma SplitGood(n: Node, i: nat, full: string)
    requires Good(n) && n.kind != Param && i < |n.path| && n.priority > 0
    ensures Good(Split(n, i, full))
    ensures Split(n, i, full).kind == n.kind && Split(n, i, full).indices == [n.path[i]]
  {
    var m := Split(n, i, full);
    var low := m.children[0];
    assert !HasWild(low.path) && !HasWild(m.path);
    assert Statics(low) == Statics(n);
    assert GoodHere(low);
    assert forall j | 0 <= j < |low.children| :: Good(n.children[j]);
    assert Good(low);
  }

  lemma PlaceGood(n: Node, full: string, h: Handler)
    requires Good(n)
    ensures Good(Place(n, full, h).0)
  {
  }

  /** An element moved forward stands before those it passed. */
  lemma MovedForward<T>(s: seq<T>, from: nat, to: nat)
    requires to <= from < |s|
    ensures var r := MoveForward(s, from, to);
            && r[to] == s[from]
            && (forall i | 0 <= i < to :: r[i] == s[i])
            && (forall i | to < i <= from :: r[i] == s[i - 1])
            && (forall i | from < i < |s| :: r[i] == s[i])
  {
  }

  lemma SameElements<T>(s: seq<T>, from: nat, to: nat)
    requires to <= from < |s|
    ensures forall x | x in s :: x in MoveForward(s, from, to)
    ensures forall x | x in MoveForward(s, from, to) :: x in s
  {
    MovedForward(s, from, to);
    var r := MoveForward(s, from, to);
    forall i | 0 <= i < |s|
      ensures s[i] in r
    {
      assert s[i] == if i == from then r[to] else if to <= i < from then r[i + 1] else r[i];
    }
  }

  lemma DistinctMoved(s: string, from: nat, to: nat)
    requires to <= from < |s| && Distinct(s)
    ensures Distinct(MoveForward(s, from, to))
  {
    MovedForward(s, from, to);
  }

  /** Where the element at `i` stood before it was moved. */
  function Source(from: nat, to: nat, i: nat): nat {
    if i == to then from else if to < i <= from then i - 1 else i
  }

  lemma MovedAt<T>(s: seq<T>, from: nat, to: nat, i: nat)
    requires to <= from < |s| && i < |s|
    ensures MoveForward(s, from, to)[i] == s[Source(from, to, i)]
  {
  }

  lemma SortedMoved(cs: seq<Node>, pos: nat)
    requires Sorted(cs) && pos < |cs|
    ensures var ds := cs[pos := Raise(cs[pos])];
            Sorted(MoveForward(ds, pos, NewPosition(ds, pos, ds[pos].priority)))
  {
    var ds := cs[pos := Raise(cs[pos])];
    var k := NewPosition(ds, pos, ds[pos].priority);
    var r := MoveForward(ds, pos, k);
    SortedPairs(cs);
    hide MoveForward, NewPosition, Sorted, SortedFacts;
    forall i, j | 0 <= i < j < |r|
      ensures r[i].priority >= r[j].priority
    {
      MovedAt(ds, pos, k, i);
      MovedAt(ds, pos, k, j);
      MovedPair(cs, ds, pos, k, i, j);
    }
    IsSorted(r);
  }

  lemma MovedPair(cs: seq<Node>, ds: seq<Node>, pos: nat, k: nat, i: nat, j: nat)
    requires SortedFacts(cs) && k <= pos < |cs| && i < j < |cs| && ds == cs[pos := Raise(cs[pos])]
    requires forall i | k <= i < pos :: ds[i].priority < ds[pos].priority
    requires k > 0 ==> ds[k - 1].priority >= ds[pos].priority
    ensures ds[Source(pos, k, i)].priority >= ds[Source(pos, k, j)].priority
  {
    var a, b := Source(pos, k, i), Source(pos, k, j);
    if j == k {
      assert cs[a].priority >= cs[k - 1].priority;
    } else if i != k {
      assert cs[a].priority >= cs[b].priority;
    } else if b > pos {
      assert cs[pos].priority >= cs[b].priority;
    }
  }

  predicate SortedFacts(cs: seq<Node>) {
    forall i, j | 0 <= i <= j < |cs| :: cs[i].priority >= cs[j].priority
  }

  lemma SortedPairs(cs: seq<Node>)
    requires Sorted(cs)
    ensures SortedFacts(cs)
  {
  }

  lemma IsSorted(cs: seq<Node>)
    requires forall i, j | 0 <= i < j < |cs| :: cs[i].priority >= cs[j].priority
    ensures Sorted(cs)
  {
  }

  /** `increment_child_prio` keeps the index string aligned, distinct and sorted. */
  lemma IncrementIndexed(cs: seq<Node>, indices: string, pos: nat)
    requires Indexed(cs, indices) && pos < |cs|
    ensures var ds := cs[pos := Raise(cs[pos])];
            var k := NewPosition(ds, pos, ds[pos].priority);
            Indexed(MoveForward(ds, pos, k), MoveForward(indices, pos, k))
  {
    var ds := cs[pos := Raise(cs[pos])];
    var k := NewPosition(ds, pos, ds[pos].priority);
    SortedMoved(cs, pos);
    DistinctMoved(indices, pos, k);
    MovedForward(ds, pos, k);
    MovedForward(indices, pos, k);
    hide MoveForward, NewPosition, Sorted, Distinct, HasWild;
  }

  lemma MoveBeforeLast<T>(s: seq<T>, last: T, from: nat, to: nat)
    requires to <= from < |s|
    ensures MoveForward(s + [last], from, to) == MoveForward(s, from, to) + [last]
  {
    var t := s + [last];
    assert t[..to] == s[..to] && t[to..from] == s[to..from] && t[from + 1..] == s[from + 1..] + [last];
  }

  /** The wildcard child stays last while the others move. */
  lemma IncrementStatics(n: Node, pos: nat)
    requires n.kind != Param && GoodHere(n) && pos < |n.indices|
    ensures |n.indices| <= |n.children| && pos < |Statics(n)|
    ensures var (m, k) := IncrementChildPrio(n, pos);
            var ds := Statics(n)[pos := Raise(Statics(n)[pos])];
            && k == NewPosition(ds, pos, ds[pos].priority)
            && Statics(m) == MoveForward(ds, pos, k) && m.indices == MoveForward(n.indices, pos, k)
            && (n.wildChild ==> m.children[|m.children| - 1] == n.children[|n.children| - 1])
  {
    hide MoveForward, NewPosition, Sorted, Distinct, HasWild, IsStatic;
    var cs := n.children[pos := Raise(n.children[pos])];
    var ds := Statics(n)[pos := Raise(Statics(n)[pos])];
    assert cs[..pos] == ds[..pos];
    SamePosition(cs, ds, pos, ds[pos].priority);
    var k := NewPosition(ds, pos, ds[pos].priority);
    if n.wildChild {
      var last := n.children[|n.children| - 1];
      assert cs == ds + [last];
      MoveBeforeLast(ds, last, pos, k);
    }
  }

  lemma {:induction false} SamePosition(cs: seq<Node>, ds: seq<Node>, pos: nat, prio: nat)
    requires pos <= |cs| && pos <= |ds| && cs[..pos] == ds[..pos]
    ensures NewPosition(cs, pos, prio) == NewPosition(ds, pos, prio)
  {
    if pos > 0 {
      assert cs[..pos][pos - 1] == ds[..pos][pos - 1];
      assert cs[..pos - 1] == cs[..pos][..pos - 1] && ds[..pos - 1] == ds[..pos][..pos - 1];
      SamePosition(cs, ds, pos - 1, prio);
    }
  }

  /** Rearranging good children, one of them raised, leaves them good. */
  lemma RaisedAndMovedGood(cs: seq<Node>, pos: nat, k: nat)
    requires k <= pos < |cs| && forall i | 0 <= i < |cs| :: Good(cs[i])
    ensures forall c | c in MoveForward(cs[pos := Raise(cs[pos])], pos, k) :: Good(c)
  {
    var ds := cs[pos := Raise(cs[pos])];
    RaiseKeepsGood(cs[pos]);
    SameElements(ds, pos, k);
    hide Good, MoveForward;
    forall c | c in MoveForward(ds, pos, k)
      ensures Good(c)
    {
      assert c in ds;
    }
  }

  lemma IncrementGood(n: Node, pos: nat)
    requires n.kind != Param && Good(n) && pos < |n.indices|
    ensures |n.indices| <= |n.children|
    ensures Good(IncrementChildPrio(n, pos).0)
  {
    UnfoldGood(n);
    hide Good;
    IncrementStatics(n, pos);
    IncrementIndexed(Statics(n), n.indices, pos);
    var (m, k) := IncrementChildPrio(n, pos);
    RaisedAndMovedGood(n.children, pos, k);
    hide Indexed, MoveForward, HasWild;
    assert GoodHere(m);
    UnfoldGood(m);
  }

  lemma IncrementRoutes(n: Node, pos: nat)
    requires n.kind != Param && Good(n) && pos < |n.indices|
    ensures |n.indices| <= |n.children|
    ensures SameTableIn(n.children, IncrementChildPrio(n, pos).0.children)
  {
    IncrementGood(n, pos);
    GoodHeads(n);
    var cs := n.children[pos := Raise(n.children[pos])];
    var (m, k) := IncrementChildPrio(n, pos);
    GoodHeads(m);
    RaisedIn(n.children, pos);
    SameElements(cs, pos, k);
    hide Good, MoveForward, Heads, RoutedIn;
    OrderDoesNotMatter(cs, m.children);
  }

  lemma RaisedIn(cs: seq<Node>, pos: nat)
    requires Heads(cs) && pos < |cs|
    ensures Heads(cs[pos := Raise(cs[pos])])
    ensures SameTableIn(cs, cs[pos := Raise(cs[pos])])
  {
    var ds := cs[pos := Raise(cs[pos])];
    RaiseRoutes(cs[pos]);
    forall q | q != ""
      ensures RoutedIn(ds, q) == RoutedIn(cs, q)
    {
      var j := ChildFor(cs, q[0]);
      if j < |cs| { HeadIsFound(ds, j); } else { NoChild(ds, q[0]); }
    }
  }
}
