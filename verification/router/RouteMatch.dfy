/**
 A text matched with a route from the front, segment by segment, which is what it means that
 values fit the route to the text.
 */
module RouteMatch {
  import opened RouteTree
  import opened RouteAdd
  import opened RouteFill

  /** The values of the parameters, if the text has the form of the route. */
  function Match(route: string, text: string): Option<seq<Binding>>
    decreases |route|
  {
    if route == "" then (if text == "" then Some([]) else None)
    else if text == "" then None
    else if route[0] == ':' then
      var e, k := SegmentEnd(route), SegmentEnd(text);
      match Match(route[e..], text[k..])
      case Some(ps) => Some([Binding(route[1..e], text[..k])] + ps)
      case None => None
    else if route[0] == text[0] then Match(route[1..], text[1..])
    else None
  }

  // ----- routes taken apart at the front

  lemma {:induction false} FrontChar(c: char, r: string, ps: seq<Binding>)
    requires c != ':'
    ensures Used([c] + r) == Used(r) && Names([c] + r) == Names(r) && Open([c] + r) == Open(r)
    ensures Used(r) <= |ps| ==> Fill([c] + r, ps) == [c] + Fill(r, ps)
    decreases |r|
  {
    hide *;
    NothingUsed();
    if r == "" {
      BackStep("", c, ps);
      assert "" + [c] == [c] + "" == [c];
    } else {
      var front, d := r[..|r| - 1], r[|r| - 1];
      FrontChar(c, front, ps);
      BackStep([c] + front, d, ps);
      BackStep(front, d, ps);
      assert [c] + front + [d] == [c] + r && front + [d] == r;
      if Used(r) <= |ps| {
        var t := Fill(front, ps);
        assert [c] + t + [d] == [c] + (t + [d]);
        assert d == ':' ==> [c] + t + ps[Used(front)].value == [c] + (t + ps[Used(front)].value);
      }
    }
  }

  /** A parameter's name. */
  predicate IsName(name: string) {
    name != "" && name[0] == ':' && ':' !in name[1..] && '/' !in name
  }

  lemma OnlyName(name: string, v: string)
    requires IsName(name)
    ensures Fills(name, [Binding(name[1..], v)], v) && Open(name)
  {
    NothingFilled();
    FillsParam("", [], "", name, v);
    assert "" + name == name && [] + [Binding(name[1..], v)] == [Binding(name[1..], v)] && "" + v == v;
  }

  lemma NameAlone(name: string, b: Binding, ps: seq<Binding>)
    requires IsName(name)
    ensures Used(name) == 1 && Names(name) == [name[1..]] && Open(name) && Fill(name, [b] + ps) == b.value
  {
    OnlyName(name, b.value);
    var own := Binding(name[1..], b.value);
    assert Keys([own]) == [name[1..]];
    SameValue(name, [], own.key, b.key, b.value);
    assert [] + [own] == [own] && [] + [Binding(b.key, b.value)] == [b];
    MoreValues(name, [b], ps);
  }

  lemma {:induction false} FrontParam(name: string, r: string, b: Binding, ps: seq<Binding>)
    requires IsName(name) && (r != "" ==> r[0] == '/')
    ensures Used(name + r) == 1 + Used(r) && Names(name + r) == [name[1..]] + Names(r)
    ensures Open(name + r) == (r == "" || Open(r))
    ensures Used(r) <= |ps| ==> Fill(name + r, [b] + ps) == b.value + Fill(r, ps)
    decreases |r|
  {
    hide *;
    NothingUsed();
    NameAlone(name, b, ps);
    if r == "" {
      assert name + r == name && b.value + "" == b.value && [name[1..]] + [] == [name[1..]];
    } else {
      var front, c := r[..|r| - 1], r[|r| - 1];
      FrontParam(name, front, b, ps);
      ParamStep(name, name[1..], front, c, b, ps);
      assert name + front + [c] == name + r && front + [c] == r;
    }
  }

  lemma ParamStep(name: string, key: string, front: string, c: char, b: Binding, ps: seq<Binding>)
    requires front == "" ==> c == '/'
    requires Used(name + front) == 1 + Used(front) && Names(name + front) == [key] + Names(front)
    requires Open(name + front) == (front == "" || Open(front))
    requires Used(front) <= |ps| ==> Fill(name + front, [b] + ps) == b.value + Fill(front, ps)
    ensures Used(name + front + [c]) == 1 + Used(front + [c]) && Names(name + front + [c]) == [key] + Names(front + [c])
    ensures Open(name + front + [c]) == Open(front + [c])
    ensures Used(front + [c]) <= |ps| ==> Fill(name + front + [c], [b] + ps) == b.value + Fill(front + [c], ps)
  {
    hide *;
    ParamNamesStep(name, key, front, c);
    if Used(front + [c]) <= |ps| {
      BackStep(front, c, ps);
      ParamFillStep(name, front, c, b, ps);
    }
  }

  lemma ParamNamesStep(name: string, key: string, front: string, c: char)
    requires front == "" ==> c == '/'
    requires Used(name + front) == 1 + Used(front) && Names(name + front) == [key] + Names(front)
    requires Open(name + front) == (front == "" || Open(front))
    ensures Used(name + front + [c]) == 1 + Used(front + [c]) && Names(name + front + [c]) == [key] + Names(front + [c])
    ensures Open(name + front + [c]) == Open(front + [c])
  {
    hide *;
    NothingUsed();
    BackStep(name + front, c, []);
    BackStep(front, c, []);
    KeyBefore(key, Names(front), c);
  }

  lemma ParamFillStep(name: string, front: string, c: char, b: Binding, ps: seq<Binding>)
    requires front == "" ==> c == '/'
    requires Used(name + front) == 1 + Used(front) && Open(name + front) == (front == "" || Open(front))
    requires Used(front) <= |ps| && Fill(name + front, [b] + ps) == b.value + Fill(front, ps)
    requires Used(front + [c]) <= |ps| && Used(name + front + [c]) == 1 + Used(front + [c])
    ensures Fill(name + front + [c], [b] + ps) == b.value + Fill(front + [c], ps)
  {
    hide *;
    NothingUsed();
    BackStep(name + front, c, [b] + ps);
    BackStep(front, c, ps);
    var t := Fill(front, ps);
    if c == ':' {
      assert ([b] + ps)[Used(front) + 1] == ps[Used(front)];
      Associate(b.value, t, ps[Used(front)].value);
    } else {
      Associate(b.value, t, [c]);
    }
  }

  lemma Associate(u: string, v: string, w: string)
    ensures u + v + w == u + (v + w)
  {
  }

  lemma KeyBefore(key: string, names: seq<string>, c: char)
    ensures [key] + names + [""] == [key] + (names + [""])
    ensures names != [] ==>
      var all := [key] + names;
      all[..|all| - 1] + [all[|all| - 1] + [c]] == [key] + (names[..|names| - 1] + [names[|names| - 1] + [c]])
  {
  }

  lemma NothingUsed()
    ensures Used("") == 0 && Names("") == [] && !Open("") && forall ps :: Fill("", ps) == ""
  {
  }

  /** One character at the end. */
  lemma BackStep(front: string, c: char, ps: seq<Binding>)
    ensures Used(front + [c]) == Used(front) + if c == ':' then 1 else 0
    ensures Open(front + [c]) == (c == ':' || (c != '/' && Open(front)))
    ensures Open(front) ==> |Names(front)| > 0
    ensures Names(front + [c]) ==
      if c == ':' then Names(front) + [""]
      else if c != '/' && Open(front) then
        var names := Names(front);
        if names == [] then [] else names[..|names| - 1] + [names[|names| - 1] + [c]]
      else Names(front)
    ensures Used(front + [c]) <= |ps| ==>
      Fill(front + [c], ps) ==
        if c == ':' then Fill(front, ps) + ps[Used(front)].value
        else if c != '/' && Open(front) then Fill(front, ps)
        else Fill(front, ps) + [c]
  {
    var s := front + [c];
    assert s[..|s| - 1] == front;
    if Open(front) {
      OpenIsUsed(front);
    }
  }

  // ----- fitting is matching

  lemma FitsChar(c: char, r: string, ps: seq<Binding>, text: string)
    requires c != ':'
    ensures Fits([c] + r, ps, text) <==> text != "" && text[0] == c && Fits(r, ps, text[1..])
  {
    FrontChar(c, r, ps);
    hide Used, Names, Open, Fill;
    if text != "" {
      assert text == [text[0]] + text[1..];
    }
  }

  lemma FitsIs(route: string, ps: seq<Binding>, text: string)
    ensures Fits(route, ps, text) <==>
      && Used(route) == |ps| && Names(route) == Keys(ps) && Fill(route, ps) == text
      && OneSegmentEach(ps) && (Open(route) ==> ps != [] && ps[|ps| - 1].value != "")
  {
  }

  lemma KeysOf(b: Binding, ps: seq<Binding>)
    ensures Keys([b] + ps) == [b.key] + Keys(ps)
    ensures OneSegmentEach([b] + ps) <==> '/' !in b.value && OneSegmentEach(ps)
    ensures ([b] + ps)[|ps|] == if ps == [] then b else ps[|ps| - 1]
  {
    var all := [b] + ps;
    assert all[0] == b && forall i | 0 <= i < |ps| :: all[i + 1] == ps[i];
    assert forall i | 0 < i < |all| :: all[i] == ps[i - 1];
  }

  lemma FitsName(name: string, r: string, ps: seq<Binding>, text: string)
    requires IsName(name) && (r != "" ==> r[0] == '/')
    requires Fits(name + r, ps, text)
    ensures text != "" && ps != [] && ps[0] == Binding(name[1..], text[..SegmentEnd(text)])
            && Fits(r, ps[1..], text[SegmentEnd(text)..])
  {
    NameLong(name);
    hide *;
    FitsIs(name + r, ps, text);
    FrontParam(name, r, Binding("", ""), []);
    var b, more := ps[0], ps[1..];
    assert ps == [b] + more;
    KeysOf(b, more);
    FrontParam(name, r, b, more);
    FillBegins(r, more);
    var rest := Fill(r, more);
    assert text == b.value + rest;
    SegmentIs(b.value, rest);
    assert text[..|b.value|] == b.value && text[|b.value|..] == rest;
    assert [name[1..]] + Names(r) == [b.key] + Keys(more);
    assert ([name[1..]] + Names(r))[1..] == Names(r) && ([b.key] + Keys(more))[1..] == Keys(more);
    assert name[1..] == ([name[1..]] + Names(r))[0];
    FitsIs(r, more, rest);
  }

  lemma NameLong(name: string)
    requires IsName(name)
    ensures |name| >= 1
  {
  }

  /** What a route beginning with a slash is filled to begins with it. */
  lemma FillBegins(r: string, ps: seq<Binding>)
    requires r != "" ==> r[0] == '/'
    ensures Used(r) <= |ps| ==> var t := Fill(r, ps); if r == "" then t == "" else t != "" && t[0] == '/'
    ensures r != "" && Open(r) ==> Used(r) > 0
  {
    if r != "" {
      assert r == ['/'] + r[1..];
      FrontChar('/', r[1..], ps);
      if Open(r) { OpenIsUsed(r); }
    }
  }

  lemma {:induction false} SegmentIs(v: string, rest: string)
    requires '/' !in v && (rest != "" ==> rest[0] == '/')
    ensures SegmentEnd(v + rest) == |v|
    decreases |v|
  {
    if v == "" {
      assert v + rest == rest;
    } else {
      assert v[0] in v && (v + rest)[1..] == v[1..] + rest;
      SegmentIs(v[1..], rest);
    }
  }

  lemma NameFits(name: string, r: string, ps: seq<Binding>, text: string)
    requires IsName(name) && (r != "" ==> r[0] == '/') && text != ""
    requires Fits(r, ps, text[SegmentEnd(text)..])
    ensures |name| >= 1 && Fits(name + r, [Binding(name[1..], text[..SegmentEnd(text)])] + ps, text)
  {
    NameLong(name);
    hide *;
    var k := SegmentEnd(text);
    var b := Binding(name[1..], text[..k]);
    SegmentHasNoSlash(text);
    FitsIs(r, ps, text[k..]);
    KeysOf(b, ps);
    FrontParam(name, r, b, ps);
    FillBegins(r, ps);
    assert text == text[..k] + text[k..];
    if r == "" {
      NothingUsed();
      assert text[..k] == text;
    }
    FitsIs(name + r, [b] + ps, text);
  }

  lemma SegmentHasNoSlash(text: string)
    ensures '/' !in text[..SegmentEnd(text)]
  {
  }

  lemma NameOfRoute(route: string)
    requires ValidPattern(route) && route != "" && route[0] == ':'
    ensures var e := SegmentEnd(route);
      && 0 < e && IsName(route[..e]) && ValidPattern(route[e..]) && route == route[..e] + route[e..]
      && (route[e..] != "" ==> route[e..][0] == '/') && route[..e][1..] == route[1..e]
  {
    hide *;
    var e := SegmentEnd(route);
    var name := route[..e];
    SegmentOf(route);
    PatternAfterName(route, name);
    NameIsName(name);
  }

  lemma SegmentOf(route: string)
    requires route != "" && route[0] == ':'
    ensures var e := SegmentEnd(route);
      && 0 < e && '/' !in route[..e] && IsWild(route[0]) && SameWildcard(route[..e], route)
      && (route[e..] != "" ==> route[e..][0] == '/')
  {
  }

  lemma NameIsName(name: string)
    requires ValidWildcard(name) && '/' !in name
    ensures IsName(name)
  {
    forall i | 0 <= i < |name[1..]|
      ensures name[1..][i] != ':'
    {
      assert !IsWild(name[1..][i]);
    }
  }

  lemma CharOfRoute(route: string)
    requires ValidPattern(route) && route != "" && route[0] != ':'
    ensures ValidPattern(route[1..]) && route == [route[0]] + route[1..]
  {
    WildIsColon(route);
    hide ValidPattern;
    assert FirstWild(route) >= 1;
    PatternTail(route, 1);
  }

  /** The values that fit a route to a text are those the match finds, and there are no others. */
  lemma {:induction false} FitsIffMatch(route: string, ps: seq<Binding>, text: string)
    requires ValidPattern(route)
    ensures Fits(route, ps, text) <==> Match(route, text) == Some(ps)
    decreases |route|
  {
    hide *;
    if route == "" {
      EmptyFits(ps, text);
    } else if route[0] == ':' {
      NameOfRoute(route);
      var e, k := SegmentEnd(route), SegmentEnd(text);
      var name, r := route[..e], route[e..];
      MatchName(route, text);
      if Fits(route, ps, text) {
        FitsName(name, r, ps, text);
        FitsIffMatch(r, ps[1..], text[k..]);
        assert ps == [ps[0]] + ps[1..];
      }
      if Match(route, text) == Some(ps) {
        var more := Match(r, text[k..]).value;
        FitsIffMatch(r, more, text[k..]);
        NameFits(name, r, more, text);
      }
    } else {
      CharOfRoute(route);
      FitsChar(route[0], route[1..], ps, text);
      MatchChar(route, text);
      if text != "" {
        FitsIffMatch(route[1..], ps, text[1..]);
      }
    }
  }

  lemma MatchChar(route: string, text: string)
    requires route != "" && route[0] != ':'
    ensures Match(route, text) == if text != "" && route[0] == text[0] then Match(route[1..], text[1..]) else None
  {
  }

  lemma EmptyFits(ps: seq<Binding>, text: string)
    ensures Fits("", ps, text) <==> text == "" && ps == []
    ensures Match("", text) == Some(ps) <==> text == "" && ps == []
  {
    NothingUsed();
  }

  lemma MatchName(route: string, text: string)
    requires route != "" && route[0] == ':'
    ensures var e, k := SegmentEnd(route), SegmentEnd(text);
            Match(route, text) ==
              if text == "" then None
              else match Match(route[e..], text[k..])
                   case Some(ps) => Some([Binding(route[1..e], text[..k])] + ps)
                   case None => None
  {
  }
}
