/**
 Routes with parameters: what a route becomes when values are put for its parameters.
 */
module RouteFill {
  import opened RouteTree

  datatype Binding = Binding(key: string, value: string)

  /** How many parameters a route has. */
  function Used(route: string): nat {
    if route == "" then 0 else Used(route[..|route| - 1]) + if route[|route| - 1] == ':' then 1 else 0
  }

  /** The route ends in a parameter. */
  predicate Open(route: string) {
    route != "" &&
    var c := route[|route| - 1];
    c == ':' || (c != '/' && Open(route[..|route| - 1]))
  }

  /** The route with the values in place of its parameters. */
  function Fill(route: string, ps: seq<Binding>): string
    requires Used(route) <= |ps|
  {
    if route == "" then ""
    else
      var front, c := route[..|route| - 1], route[|route| - 1];
      if c == ':' then Fill(front, ps) + ps[Used(front)].value
      else if c != '/' && Open(front) then Fill(front, ps)
      else Fill(front, ps) + [c]
  }

  /** The names of the parameters, in order. */
  function Names(route: string): (names: seq<string>)
    ensures |names| == Used(route)
  {
    if route == "" then []
    else
      var front, c := route[..|route| - 1], route[|route| - 1];
      var names := Names(front);
      if c == ':' then names + [""]
      else if c != '/' && Open(front) then
        OpenIsUsed(front);
        names[..|names| - 1] + [names[|names| - 1] + [c]]
      else names
  }

  lemma {:induction false} OpenIsUsed(route: string)
    requires Open(route)
    ensures Used(route) > 0
  {
    if route[|route| - 1] != ':' {
      OpenIsUsed(route[..|route| - 1]);
    }
  }

  function Keys(ps: seq<Binding>): (keys: seq<string>)
    ensures |keys| == |ps|
  {
    seq(|ps|, i requires 0 <= i < |ps| => ps[i].key)
  }

  /** The values are for exactly the parameters of the route, and fill it to `text`. */
  predicate Fills(route: string, ps: seq<Binding>, text: string) {
    Used(route) == |ps| && Names(route) == Keys(ps) && Fill(route, ps) == text
  }

  lemma {:induction false} MoreValues(route: string, ps: seq<Binding>, more: seq<Binding>)
    requires Used(route) <= |ps|
    ensures Fill(route, ps + more) == Fill(route, ps)
  {
    if route != "" {
      MoreValues(route[..|route| - 1], ps, more);
    }
  }

  /** Text without parameters is appended as it is. */
  lemma {:induction false} FillsText(route: string, ps: seq<Binding>, text: string, more: string)
    requires Fills(route, ps, text) && ':' !in more
    requires Open(route) && more != "" ==> more[0] == '/'
    ensures Fills(route + more, ps, text + more)
    ensures more != "" || !Open(route) ==> !Open(route + more)
    decreases |more|
  {
    if more == "" {
      assert route + more == route && text + more == text;
    } else {
      var front, c := more[..|more| - 1], more[|more| - 1];
      assert c in more;
      FillsText(route, ps, text, front);
      var longer := route + more;
      assert longer[..|longer| - 1] == route + front;
      assert text + more == text + front + [c];
      if front == "" {
        assert route + front == route;
      }
    }
  }

  /** A parameter is appended with its value. */
  lemma {:induction false} FillsParam(route: string, ps: seq<Binding>, text: string, name: string, value: string)
    requires Fills(route, ps, text)
    requires name != "" && name[0] == ':' && ':' !in name[1..] && '/' !in name
    ensures Fills(route + name, ps + [Binding(name[1..], value)], text + value) && Open(route + name)
    decreases |name|
  {
    if |name| == 1 {
      FillsColon(route, ps, text, value);
      assert name == ":" && name[1..] == "";
    } else {
      hide Fills, Open;
      var front, c := name[..|name| - 1], name[|name| - 1];
      FrontOfName(name);
      FillsParam(route, ps, text, front, value);
      LongerName(route + front, ps, text + value, front[1..], value, c);
      assert route + front + [c] == route + name;
    }
  }

  lemma FrontOfName(name: string)
    requires |name| >= 2 && name[0] == ':' && ':' !in name[1..] && '/' !in name
    ensures var front, c := name[..|name| - 1], name[|name| - 1];
            && front + [c] == name && front[1..] + [c] == name[1..]
            && front[0] == ':' && ':' !in front[1..] && '/' !in front && c != ':' && c != '/'
  {
    var front, c := name[..|name| - 1], name[|name| - 1];
    assert front[1..] == name[1..][..|name| - 2];
    assert name[1..][|name| - 2] == c && c in name[1..] && c in name;
  }

  lemma FillsColon(route: string, ps: seq<Binding>, text: string, value: string)
    requires Fills(route, ps, text)
    ensures Fills(route + ":", ps + [Binding("", value)], text + value) && Open(route + ":")
  {
    var longer := route + ":";
    assert longer[..|longer| - 1] == route;
    MoreValues(route, ps, [Binding("", value)]);
    assert Keys(ps + [Binding("", value)]) == Keys(ps) + [""];
  }

  /** The name of the last parameter grows by a character. */
  lemma LongerName(route: string, ps: seq<Binding>, text: string, key: string, value: string, c: char)
    requires Fills(route, ps + [Binding(key, value)], text) && Open(route) && c != ':' && c != '/'
    ensures Fills(route + [c], ps + [Binding(key + [c], value)], text) && Open(route + [c])
  {
    var longer := route + [c];
    assert longer[..|longer| - 1] == route;
    assert Keys(ps + [Binding(key, value)]) == Keys(ps) + [key];
    assert Keys(ps + [Binding(key + [c], value)]) == Keys(ps) + [key + [c]];
    SameValue(route, ps, key, key + [c], value);
  }

  /** Filling looks at the values only. */
  lemma {:induction false} SameValue(route: string, ps: seq<Binding>, key: string, other: string, value: string)
    requires Used(route) <= |ps| + 1
    ensures Fill(route, ps + [Binding(key, value)]) == Fill(route, ps + [Binding(other, value)])
  {
    if route != "" {
      SameValue(route[..|route| - 1], ps, key, other, value);
    }
  }

  lemma NothingFilled()
    ensures Fills("", [], "") && !Open("")
  {
  }

  /** A route without parameters fills to itself. */
  lemma {:induction false} StaticFillsItself(route: string)
    requires ':' !in route
    ensures Fills(route, [], route)
  {
    NothingFilled();
    FillsText("", [], "", route);
    assert "" + route == route;
  }

  /** No value goes beyond its segment. */
  predicate OneSegmentEach(ps: seq<Binding>) {
    forall i | 0 <= i < |ps| :: '/' !in ps[i].value
  }

  /** The values fill the route to `text`, each with one segment, and the last with some text if the route ends in it. */
  predicate Fits(route: string, ps: seq<Binding>, text: string) {
    && Fills(route, ps, text) && OneSegmentEach(ps)
    && (Open(route) ==> ps != [] && ps[|ps| - 1].value != "")
  }
}
