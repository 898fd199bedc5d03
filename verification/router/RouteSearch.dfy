/**
 The lookup without its stack: a search that goes into a static child first and comes back
 for the wildcard child. What the loop finds is what the search finds.
 */
module RouteSearch {
  import opened RouteTree
  import opened RouteTable
  import opened RouteFill
  import RouteNames
  import opened RouteLookup

  /** A node found, a way that ends where another may be tried, or one that ends the lookup. */
  datatype Result = Hit(value: Value) | NoWay | GivesUp

  /** Only a slash is left, or the node has the path with a slash behind it: a hint is given instead of going back. */
  predicate Hinted(n: Node, path: string) {
    path == "/" || (|n.path| == |path| + 1 && n.path[|path|] == '/' && path == n.path[..|n.path| - 1] && n.handler.Some?)
  }

  function Search(n: Node, path: string): Result
    decreases n, 1
  {
    if Passes(n, path) then
      var rest := path[|n.path|..];
      var i := IndexOf(n.indices, rest[0]);
      if i < |n.indices| then
        var r := if i < |n.children| then Search(n.children[i], rest) else GivesUp;
        if r == NoWay && n.wildChild then Through(n, rest) else r
      else if n.wildChild then Through(n, rest)
      else if rest == "/" then GivesUp
      else NoWay
    else if path == n.path then
      if n.handler.Some? then Hit(ValueOf(n)) else if path == "/" then GivesUp else NoWay
    else if Hinted(n, path) then GivesUp
    else NoWay
  }

  /** Through the wildcard child, which takes a segment. */
  function Through(n: Node, rest: string): Result
    decreases n, 0
  {
    if n.children == [] || WildOf(n).path == "" then GivesUp
    else
      var m, e := WildOf(n), SegmentEnd(rest);
      if e == |rest| then (if m.handler.Some? then Hit(ValueOf(m)) else GivesUp)
      else if m.children != [] then Search(m.children[0], rest[e..])
      else GivesUp
  }

  /** What the lookup comes to, given what it comes to at the place it stands at. */
  function Resume(skipped: seq<Skipped>, r: Result): Value
    decreases |skipped|
  {
    match r
    case Hit(value) => value
    case GivesUp => Missing
    case NoWay =>
      if skipped == [] then Missing
      else
        var s := skipped[|skipped| - 1];
        Resume(skipped[..|skipped| - 1], Search(s.node, s.path))
  }

  /** What is left at each place to go back to ends in what is left later. */
  ghost predicate Nested(skipped: seq<Skipped>, path: string) {
    && (forall i | 0 <= i < |skipped| :: HasSuffix(skipped[i].path, path))
    && (forall i, j | 0 <= i < j < |skipped| :: HasSuffix(skipped[i].path, skipped[j].path))
  }

  lemma SuffixOfSuffix(a: string, b: string, c: string)
    requires HasSuffix(a, b) && HasSuffix(b, c)
    ensures HasSuffix(a, c)
  {
    assert a[|a| - |b|..][|b| - |c|..] == a[|a| - |c|..];
  }

  lemma TailIsSuffix(s: string, i: nat)
    requires i <= |s|
    ensures HasSuffix(s, s[i..]) && HasSuffix(s, s)
  {
  }

  lemma NestedTail(skipped: seq<Skipped>, path: string, tail: string)
    requires Nested(skipped, path) && HasSuffix(path, tail)
    ensures Nested(skipped, tail)
  {
    forall i | 0 <= i < |skipped|
      ensures HasSuffix(skipped[i].path, tail)
    {
      SuffixOfSuffix(skipped[i].path, path, tail);
    }
  }

  /** Going back is to the last place skipped. */
  lemma BackToLast(p: Place, tail: string)
    requires Nested(p.skipped, p.path) && HasSuffix(p.path, tail)
    ensures match GoBack(p, tail)
            case Done(value, _) => p.skipped == [] && value == Missing
            case Walking(q) =>
              && p.skipped != [] && q.skipped == p.skipped[..|p.skipped| - 1]
              && q.n == p.skipped[|p.skipped| - 1].node && q.path == p.skipped[|p.skipped| - 1].path
              && Nested(q.skipped, q.path)
  {
    NestedTail(p.skipped, p.path, tail);
    hide HasSuffix;
  }

  /** The copy of a node that has lost its index string leads through the wildcard child. */
  lemma CopyLeadsThrough(n: Node, path: string)
    requires Passes(n, path) && n.wildChild
    ensures Search(n.(indices := ""), path) == Through(n, path[|n.path|..])
  {
    var c := n.(indices := "");
    var rest := path[|n.path|..];
    assert IndexOf("", rest[0]) == 0;
    assert Through(c, rest) == Through(n, rest);
  }

  /** A turn of the loop leaves what the search comes to. */
  lemma TurnSearches(p: Place)
    requires Nested(p.skipped, p.path)
    requires p.n.wildChild ==> p.n.children != [] && WildOf(p.n).path != ""
    requires |p.n.indices| <= |p.n.children|
    ensures match Turn(p)
            case Done(value, _) => Resume(p.skipped, Search(p.n, p.path)) == value
            case Walking(q) =>
              Nested(q.skipped, q.path) && Resume(q.skipped, Search(q.n, q.path)) == Resume(p.skipped, Search(p.n, p.path))
  {
    hide GoBack, Nested, HasSuffix, Resume;
    var n, path := p.n, p.path;
    TailIsSuffix(path, 0);
    ResumeIs(p.skipped);
    if Passes(n, path) {
      var rest := path[|n.path|..];
      TailIsSuffix(path, |n.path|);
      BackToLast(p, rest);
      var i := IndexOf(n.indices, rest[0]);
      if i < |n.indices| {
        IntoChildSearches(p, i);
      } else if n.wildChild && SegmentEnd(rest) < |rest| && WildOf(n).children != [] {
        var tail := rest[SegmentEnd(rest)..];
        TailIsSuffix(rest, SegmentEnd(rest));
        SuffixOfSuffix(path, rest, tail);
        NestedTail(p.skipped, path, tail);
      }
    } else {
      BackToLast(p, path);
    }
  }

  lemma ResumeIs(skipped: seq<Skipped>)
    ensures forall v :: Resume(skipped, Hit(v)) == v
    ensures Resume(skipped, GivesUp) == Missing
    ensures Resume(skipped, NoWay) ==
      if skipped == [] then Missing
      else Resume(skipped[..|skipped| - 1], Search(skipped[|skipped| - 1].node, skipped[|skipped| - 1].path))
  {
  }

  lemma IntoChildSearches(p: Place, i: nat)
    requires Nested(p.skipped, p.path) && Passes(p.n, p.path)
    requires i == IndexOf(p.n.indices, p.path[|p.n.path|]) < |p.n.indices| <= |p.n.children|
    ensures var q := IntoChild(p, i);
            Nested(q.skipped, q.path) && Resume(q.skipped, Search(q.n, q.path)) == Resume(p.skipped, Search(p.n, p.path))
  {
    var n, path := p.n, p.path;
    var rest := path[|n.path|..];
    TailIsSuffix(path, |n.path|);
    NestedTail(p.skipped, path, rest);
    if n.wildChild {
      var s := Skipped(path, n.(indices := ""), p.count);
      var more := p.skipped + [s];
      assert more[..|more| - 1] == p.skipped;
      assert Nested(more, rest);
      CopyLeadsThrough(n, path);
      ResumeIs(more);
      ResumeIs(p.skipped);
    }
    hide Nested, HasSuffix, Through, Resume;
  }

  /** The loop comes to what the search comes to. */
  lemma {:induction false} LoopSearches(root: Node, text: string, p: Place, above: string, aboves: seq<string>)
    requires Inv(root, text, p, above, aboves) && Nested(p.skipped, p.path)
    ensures LookupFrom(p).0 == Resume(p.skipped, Search(p.n, p.path))
    decreases Measure(p)
  {
    var above', aboves' := TurnIsOk(root, text, p, above, aboves);
    InvFacts(root, text, p, above, aboves);
    hide Inv, Measure, Turn, Right, Nested, Search, Resume;
    TurnSearches(p);
    match Turn(p)
    case Walking(q) => LoopSearches(root, text, q, above', aboves');
    case Done(_, _) =>
  }

  lemma InvFacts(root: Node, text: string, p: Place, above: string, aboves: seq<string>)
    requires Inv(root, text, p, above, aboves)
    ensures p.n.wildChild ==> p.n.children != [] && WildOf(p.n).path != ""
    ensures |p.n.indices| <= |p.n.children|
  {
    if p.n.wildChild {
      WildFacts(root, text, p, above, aboves);
    }
  }

  /** The lookup is the search; where that finds no way there is none left to try. */
  lemma LookupIsSearch(root: Node, text: string)
    requires GoodRoot(root) && RouteNames.Named(root, "")
    ensures Lookup(root, text).0 == match Search(root, text) case Hit(value) => value case _ => Missing
  {
    Begins(root, text);
    hide Standing, MayReturn, LookupFrom, Search;
    var p := Place(root, text, [], 0, []);
    LoopSearches(root, text, p, "", []);
  }
}
