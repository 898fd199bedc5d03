/**
 A parameter route the lookup misses: it goes down the static child first, and where that
 ends in a parameter without a handler it gives up instead of going back.
 */
module RouteMisses {
  import opened RouteTree
  import opened RouteTable
  import opened RouteRuns
  import opened RouteNames
  import opened Routing
  import opened RouteFill
  import opened RouteLookup

  const USERS := "/:u"
  const FILES := "/f:v/e"
  const CALLS := [Call(USERS, 1), Call(FILES, 2)]

  /** The tree after the first call. */
  const USER := NEW_NODE.(path := ":u", kind := Param, priority := 1, handler := Some(1), fullPath := USERS)
  const FIRST := NEW_NODE.(path := "/", wildChild := true, kind := Root, priority := 1, children := [USER])

  /** The tree after the second. */
  const END := NEW_NODE.(path := "/e", priority := 1, handler := Some(2), fullPath := FILES)
  const FILE := NEW_NODE.(path := ":v", kind := Param, priority := 1, children := [END], fullPath := FILES)
  const F := NEW_NODE.(path := "f", wildChild := true, priority := 1, children := [FILE], fullPath := FILES)
  const SECOND := FIRST.(indices := "f", priority := 2, children := [F, USER])

  lemma WildcardsOf()
    ensures FirstWild(USERS) == 1 && USERS[1..] == ":u" && WildcardName(":u") == ":u" && ValidWildcard(":u")
    ensures FirstWild("f:v/e") == 1 && "f:v/e"[1..] == ":v/e" && WildcardName(":v/e") == ":v" && ValidWildcard(":v")
    ensures FirstWild("/e") == 2 && FirstWild("") == 0
    ensures FirstWild(FILES) == 2 && FILES[2..] == ":v/e"
  {
    assert FirstWild(":u") == 0 && USERS[1..] == ":u";
    assert SegmentEnd(":u"[1..]) == 1 && ":u"[1..] == "u" by { assert "u"[1..] == ""; }
    assert SegmentEnd(":u") == 2;
    assert ":v/e"[1..] == "v/e" && "v/e"[1..] == "/e";
    assert SegmentEnd(":v/e") == 2;
    assert ":v/e"[..2] == ":v" && ":u"[..2] == ":u";
    assert "f:v/e"[1..] == ":v/e" && FILES[1..] == "f:v/e" && FILES[2..] == ":v/e";
    assert FirstWild(":v/e") == 0;
    assert "/e"[1..] == "e" && "e"[1..] == "";
    assert FirstWild("e") == 1;
    assert !HasWild(":u"[1..]) && !HasWild(":v"[1..]);
  }

  lemma CallsAreValid()
    ensures ValidCalls(CALLS)
  {
    WildcardsOf();
    UnfoldPattern(USERS);
    UnfoldPattern("");
    UnfoldPattern("/e");
    UnfoldPattern(FILES);
    assert USERS[1 + 2..] == "" && FILES[2 + 2..] == "/e";
    hide ValidPattern, FirstWild, WildcardName, ValidWildcard;
    assert ValidCall(CALLS[0]) && ValidCall(CALLS[1]);
  }

  lemma FirstTree()
    ensures ValidCall(CALLS[0]) && GoodRoot(NEW_NODE) && Add(NEW_NODE, USERS, 1) == (FIRST, true)
  {
    CallsAreValid();
    assert ValidCall(CALLS[0]);
    WildcardsOf();
    assert USERS[..1] == "/" && USERS[1 + 2..] == "";
    hide FirstWild, WildcardName, ValidWildcard, ValidPattern;
    var n := Raise(NEW_NODE).(kind := Root);
    assert AddChild(n.(path := "/"), USER).children == [USER];
    assert InsertChild(n, USERS, USERS, 1) == (FIRST, true);
  }

  /** `insert_child` for the second route, from its first character that is new. */
  lemma FileNodes()
    ensures InsertChild(NEW_NODE.(priority := 1, fullPath := FILES), "f:v/e", FILES, 2) == (F, true)
  {
    WildcardsOf();
    assert "f:v/e"[..1] == "f" && "f:v/e"[1 + 2..] == "/e" && |"/e"| == 2;
    hide FirstWild, WildcardName, ValidWildcard;
    var sub := NEW_NODE.(priority := 1, fullPath := FILES);
    assert InsertChild(sub, "/e", FILES, 2) == (END, true);
    var param := NEW_NODE.(path := ":v", kind := Param, priority := 1, fullPath := FILES);
    assert AddChild(param, END) == FILE;
    assert AddChild(sub.(path := "f"), FILE).(wildChild := true) == F;
  }

  lemma NewChildStays(newNode: Node)
    requires newNode.priority == 0
    ensures var cs := [newNode, USER];
            && MoveForward(cs[0 := Raise(newNode)], 0, 0) == [Raise(newNode), USER]
            && NewPosition(cs[0 := Raise(newNode)], 0, 1) == 0 && MoveForward("f", 0, 0) == "f"
  {
  }

  lemma NewChildAdded(newNode: Node)
    ensures Raise(FIRST).indices + ['f'] == "f" && |Raise(FIRST).indices| <= |Raise(FIRST).children|
    ensures AddChild(Raise(FIRST).(indices := "f"), newNode) == Raise(FIRST).(indices := "f", children := [newNode, USER])
  {
    assert [USER][..0] == [];
  }

  lemma NewChildRaised(newNode: Node)
    requires newNode.priority == 0
    ensures var m := Raise(FIRST).(indices := "f", children := [newNode, USER]);
            IncrementChildPrio(m, 0) == (m.(children := [Raise(newNode), USER]), 0)
  {
    NewChildStays(newNode);
    hide MoveForward, NewPosition;
  }

  lemma SecondGrows()
    ensures Grow(Raise(FIRST), "f:v/e", FILES, 2) == (SECOND, true)
  {
    var newNode := NEW_NODE.(fullPath := FILES);
    NewChildAdded(newNode);
    NewChildRaised(newNode);
    FileNodes();
    assert Raise(newNode) == NEW_NODE.(priority := 1, fullPath := FILES);
    hide InsertChild, AddChild, IncrementChildPrio;
    assert [Raise(newNode), USER][0 := F] == [F, USER];
  }

  lemma SecondStrings()
    ensures LongestCommonPrefix(FILES, "/") == 1 && FILES[1..] == "f:v/e" && IndexOf("", 'f') == 0
  {
    assert "/"[1..] == "";
    assert LongestCommonPrefix(FILES[1..], "") == 0;
  }

  lemma SecondTree()
    requires GoodRoot(FIRST)
    ensures ValidCall(CALLS[1]) && Add(FIRST, FILES, 2) == (SECOND, true)
  {
    CallsAreValid();
    assert ValidCall(CALLS[1]);
    SecondGrows();
    SecondStrings();
    var n := Raise(FIRST);
    assert n.path == "/" && n.indices == "" && n.kind == Root && |n.children| == 1;
    hide *;
    AddStep(FIRST, FILES, 2);
    WalkDescends(n, FILES, FILES, 0, 2);
    DescendsGrow(n, FILES, FILES, 0, 2);
  }

  lemma TreeIs()
    ensures ValidCalls(CALLS) && TreeAfter(CALLS) == SECOND && GoodRoot(SECOND)
  {
    CallsAreValid();
    assert CALLS[..1][..0] == [] && CALLS[..1][0] == CALLS[0] && CALLS[..2] == CALLS;
    assert ValidCalls(CALLS[..1]) && ValidCalls([]);
    FirstTree();
    assert TreeAfter([]) == NEW_NODE;
    assert TreeAfter(CALLS[..1]) == FIRST;
    SecondTree();
    assert TreeAfter(CALLS) == SECOND;
  }

  lemma UsersFill()
    ensures Fits(USERS, [Binding("u", "fg")], "/fg")
  {
    NothingFilled();
    FillsText("", [], "", "/");
    FillsParam("/", [], "/", ":u", "fg");
    assert ":u"[1..] == "u" && "/" + ":u" == USERS && "/" + "fg" == "/fg";
    assert [] + [Binding("u", "fg")] == [Binding("u", "fg")];
    hide Fills, Open;
  }

  const AT_FILE := Place(F, "fg", [], 0, [Skipped("/fg", SECOND.(indices := ""), 0)])

  lemma FirstTurn()
    ensures Turn(Place(SECOND, "/fg", [], 0, [])) == Walking(AT_FILE)
  {
    assert "/fg"[1..] == "fg";
    assert IndexOf("f", 'f') == 0;
    assert [] + [Skipped("/fg", SECOND.(indices := ""), 0)] == [Skipped("/fg", SECOND.(indices := ""), 0)];
  }

  lemma SecondTurn()
    ensures Turn(AT_FILE) == Done(Missing, [Binding("v", "g")])
  {
    assert "fg"[1..] == "g" && "g"[1..] == "" && ":v"[1..] == "v" && "g"[..1] == "g";
    assert SegmentEnd("") == 0 && SegmentEnd("g") == 1;
    assert IndexOf("", 'g') == 0;
    assert WildOf(F) == FILE && ValueOf(FILE) == Missing;
    assert Bind(F, "g") == Binding("v", "g");
    assert [] + [Binding("v", "g")] == [Binding("v", "g")];
    assert Passes(F, "fg");
  }

  lemma LookupMisses()
    requires GoodRoot(SECOND) && Named(SECOND, "")
    ensures Lookup(SECOND, "/fg").0 == Missing
  {
    Begins(SECOND, "/fg");
    FirstTurn();
    SecondTurn();
    hide Standing, MayReturn, Turn, Greedy, Right, Measure;
    var above', aboves' := TurnIsOk(SECOND, "/fg", Place(SECOND, "/fg", [], 0, []), "", []);
    assert LookupFrom(AT_FILE) == (Missing, [Binding("v", "g")]);
  }

  lemma UsersFirst()
    ensures ValidCalls(CALLS) && FirstAcceptedCall(CALLS, USERS) == Some(1)
  {
    CallsAreValid();
    FirstTree();
    var one := CALLS[..1];
    assert one[..0] == [] && one[0] == CALLS[0];
    assert ValidCalls(one) && ValidCalls([]);
    hide GoodRoot, Add, ValidPattern;
    assert TreeAfter([]) == NEW_NODE && LastReturned(one);
    assert FirstAcceptedCall([], USERS) == None;
    assert FirstAcceptedCall(one, USERS) == Some(1);
  }

  /**
   The route `/:u` was registered, and `/fg` is what it is filled to; but with the route
   `/f:v/e` beside it the lookup of `/fg` finds nothing.
   */
  lemma ParameterRouteIsMissed()
    ensures ValidCalls(CALLS)
    ensures FirstAcceptedCall(CALLS, USERS) == Some(1) && Fits(USERS, [Binding("u", "fg")], "/fg")
    ensures Lookup(TreeAfter(CALLS), "/fg").0 == Missing
  {
    hide *;
    TreeIs();
    UsersFill();
    UsersFirst();
    TreeIsNamed(CALLS);
    LookupMisses();
  }
}
