/**
 The character-by-character states of the URL parser, and the grammar they accept.
 */
module UrlGrammar {
  import opened Octets

  const SLASH: byte := 47
  const STAR: byte := 42
  const COLON: byte := 58
  const QUESTION: byte := 63
  const HASH: byte := 35
  const AT: byte := 64
  const OPEN: byte := 91
  const CLOSE: byte := 93
  const PERCENT: byte := 37
  const DOT: byte := 46
  const HYPHEN: byte := 45
  const UNDERSCORE: byte := 95
  const TILDE: byte := 126

  // ----- character classes, in the strict mode the parser is built with

  predicate IsAlpha(ch: byte) {
    65 <= ch <= 90 || 97 <= ch <= 122
  }

  predicate IsNum(ch: byte) {
    48 <= ch <= 57
  }

  predicate IsAlphaNum(ch: byte) {
    IsAlpha(ch) || IsNum(ch)
  }

  predicate IsHex(ch: byte) {
    IsNum(ch) || 65 <= ch <= 70 || 97 <= ch <= 102
  }

  /** Letters, digits, the marks `-_.!~*'()` and `%;:&=+$,`. */
  predicate IsUserinfo(ch: byte) {
    IsAlphaNum(ch) || ch in {45, 95, 46, 33, 126, 42, 39, 40, 41} || ch in {37, 59, 58, 38, 61, 43, 36, 44}
  }

  predicate IsHost(ch: byte) {
    IsAlphaNum(ch) || ch == DOT || ch == HYPHEN
  }

  predicate IsAddress(ch: byte) {
    IsHex(ch) || ch == COLON || ch == DOT
  }

  predicate IsZone(ch: byte) {
    IsAlphaNum(ch) || ch in {PERCENT, DOT, HYPHEN, UNDERSCORE, TILDE}
  }

  predicate IsServer(ch: byte) {
    IsUserinfo(ch) || ch == OPEN || ch == CLOSE || ch == AT
  }

  // ----- the URL

  datatype State = Dead | SpacesBeforeUrl | Schema | SchemaSlash | SchemaSlashSlash
                 | ServerStart | Server | ServerWithAt | Path
                 | QueryStart | Query | FragmentStart | Fragment

  /**
   `parse_url_char`. In a path, a query and a fragment every byte that is not `?` or `#`
   keeps the part going, whether or not the table of URL characters has it.
   */
  function ParseUrlChar(s: State, ch: byte): State {
    match s
    case SpacesBeforeUrl =>
      if ch == SLASH || ch == STAR then Path else if IsAlpha(ch) then Schema else Dead
    case Schema => if IsAlpha(ch) then Schema else if ch == COLON then SchemaSlash else Dead
    case SchemaSlash => if ch == SLASH then SchemaSlashSlash else Dead
    case SchemaSlashSlash => if ch == SLASH then ServerStart else Dead
    case ServerWithAt => if ch == AT then Dead else ParseServerChar(ch)
    case ServerStart => ParseServerChar(ch)
    case Server => ParseServerChar(ch)
    case Path => if ch == QUESTION then QueryStart else if ch == HASH then FragmentStart else Path
    case QueryStart => if ch == HASH then FragmentStart else Query
    case Query => if ch == HASH then FragmentStart else Query
    case FragmentStart => if ch == HASH then FragmentStart else Fragment
    case Fragment => Fragment
    case Dead => Dead
  }

  function ParseServerChar(ch: byte): State {
    if ch == SLASH then Path
    else if ch == QUESTION then QueryStart
    else if ch == AT then ServerWithAt
    else if IsUserinfo(ch) || ch == OPEN || ch == CLOSE then Server
    else Dead
  }

  function Start(connect: bool): State {
    if connect then ServerStart else SpacesBeforeUrl
  }

  function Scan(connect: bool, text: seq<byte>): State {
    if text == [] then Start(connect) else ParseUrlChar(Scan(connect, text[..|text| - 1]), text[|text| - 1])
  }

  /** How much of `://` has been read. */
  type Slashes = n: int | 0 <= n <= 3

  /**
   A URL in its parts: the scheme, how much of `://` follows it, the authority, the path,
   the query if a `?` was seen, how many `#` follow, and the fragment.
   */
  datatype Parts = Parts(scheme: seq<byte>, slashes: Slashes, authority: seq<byte>, path: seq<byte>,
                         asked: bool, query: seq<byte>, hashes: nat, fragment: seq<byte>)

  const NOTHING := Parts([], 0, [], [], false, [], 0, [])

  const AUTHORITY_MARK: seq<byte> := [COLON, SLASH, SLASH]

  function Hashes(n: nat): (s: seq<byte>)
    ensures |s| == n && forall i | 0 <= i < n :: s[i] == HASH
  {
    if n == 0 then [] else Hashes(n - 1) + [HASH]
  }

  function Asked(asked: bool): seq<byte> {
    if asked then [QUESTION] else []
  }

  function Pieces(x: Parts): (pieces: seq<seq<byte>>)
    ensures |pieces| == 8
  {
    [x.scheme, AUTHORITY_MARK[..x.slashes], x.authority, x.path, Asked(x.asked), x.query, Hashes(x.hashes), x.fragment]
  }

  /** The URL the parts are the parts of. */
  function Text(x: Parts): seq<byte> {
    Concat(Pieces(x))
  }

  /** An authority comes next, or may have come. */
  predicate HasServer(x: Parts, connect: bool) {
    connect || x.slashes == 3
  }

  predicate ValidScheme(x: Parts, connect: bool) {
    && (forall i | 0 <= i < |x.scheme| :: IsAlpha(x.scheme[i]))
    && (x.slashes > 0 ==> x.scheme != [])
    && (connect ==> x.scheme == [])
  }

  predicate ValidAuthority(x: Parts, connect: bool) {
    && (x.authority != [] ==> HasServer(x, connect))
    && (forall i | 0 <= i < |x.authority| :: IsServer(x.authority[i]))
    && (forall i | 0 < i < |x.authority| :: !(x.authority[i - 1] == AT && x.authority[i] == AT))
  }

  predicate ValidPath(x: Parts, connect: bool) {
    && (forall i | 0 <= i < |x.path| :: x.path[i] != QUESTION && x.path[i] != HASH)
    && (x.path != [] ==>
          x.path[0] == SLASH || (x.path[0] == STAR && !HasServer(x, connect)))
    && (x.path != [] && !HasServer(x, connect) ==> x.scheme == [])
  }

  predicate ValidRest(x: Parts, connect: bool) {
    && (x.asked ==> x.path != [] || HasServer(x, connect))
    && (x.query != [] ==> x.asked)
    && HASH !in x.query
    && (x.hashes > 0 ==> x.path != [] || x.asked)
    && (x.fragment != [] ==> x.hashes > 0 && x.fragment[0] != HASH)
  }

  predicate Valid(x: Parts, connect: bool) {
    ValidScheme(x, connect) && ValidAuthority(x, connect) && ValidPath(x, connect) && ValidRest(x, connect)
  }

  /** The state in which the parts have just been read. */
  function StateOf(x: Parts, connect: bool): State {
    if x.fragment != [] then Fragment
    else if x.hashes > 0 then FragmentStart
    else if x.query != [] then Query
    else if x.asked then QueryStart
    else if x.path != [] then Path
    else if x.authority != [] then (if x.authority[|x.authority| - 1] == AT then ServerWithAt else Server)
    else if HasServer(x, connect) then ServerStart
    else if x.slashes == 2 then SchemaSlashSlash
    else if x.slashes == 1 then SchemaSlash
    else if x.scheme != [] then Schema
    else SpacesBeforeUrl
  }

  /** The parts after one more byte, which leads to the state `s`. */
  function Advance(x: Parts, s: State, ch: byte): Parts {
    match s
    case Schema => x.(scheme := x.scheme + [ch])
    case SchemaSlash => x.(slashes := 1)
    case SchemaSlashSlash => x.(slashes := 2)
    case ServerStart => x.(slashes := 3)
    case Server => x.(authority := x.authority + [ch])
    case ServerWithAt => x.(authority := x.authority + [ch])
    case Path => x.(path := x.path + [ch])
    case QueryStart => x.(asked := true)
    case Query => x.(query := x.query + [ch])
    case FragmentStart => x.(hashes := x.hashes + 1)
    case Fragment => x.(fragment := x.fragment + [ch])
    case _ => x
  }

  /** The byte read last, and the parts without it. */
  function Last(x: Parts, connect: bool): byte
    requires x != NOTHING
  {
    match StateOf(x, connect)
    case Fragment => x.fragment[|x.fragment| - 1]
    case FragmentStart => HASH
    case Query => x.query[|x.query| - 1]
    case QueryStart => QUESTION
    case Path => x.path[|x.path| - 1]
    case Server => x.authority[|x.authority| - 1]
    case ServerWithAt => x.authority[|x.authority| - 1]
    case Schema => x.scheme[|x.scheme| - 1]
    case SchemaSlash => COLON
    case _ => SLASH
  }

  function Retract(x: Parts, connect: bool): Parts {
    match StateOf(x, connect)
    case Fragment => x.(fragment := x.fragment[..|x.fragment| - 1])
    case FragmentStart => x.(hashes := x.hashes - 1)
    case Query => x.(query := x.query[..|x.query| - 1])
    case QueryStart => x.(asked := false)
    case Path => x.(path := x.path[..|x.path| - 1])
    case Server => x.(authority := x.authority[..|x.authority| - 1])
    case ServerWithAt => x.(authority := x.authority[..|x.authority| - 1])
    case Schema => x.(scheme := x.scheme[..|x.scheme| - 1])
    case _ => x.(slashes := if x.slashes == 0 then 0 else x.slashes - 1)
  }

  /** What comes after the part a byte belongs to is still empty. */
  predicate EmptyAfter(x: Parts, s: State) {
    && (s != Fragment ==> x.fragment == [])
    && (s !in {Fragment, FragmentStart} ==> x.hashes == 0)
    && (s !in {Fragment, FragmentStart, Query} ==> x.query == [])
    && (s !in {Fragment, FragmentStart, Query} ==> !x.asked)
    && (s !in {Fragment, FragmentStart, Query, QueryStart, Path} ==> x.path == [])
    && (s in {Schema, SchemaSlash, SchemaSlashSlash, ServerStart, SpacesBeforeUrl} ==> x.authority == [])
    && (s in {Schema, SpacesBeforeUrl} ==> x.slashes == 0)
    && (s == SchemaSlash ==> x.slashes <= 1)
    && (s == SchemaSlashSlash ==> x.slashes <= 2)
    && (s == SpacesBeforeUrl ==> x.scheme == [])
  }

  /** A byte the machine takes extends the parts, and keeps them grammatical. */
  lemma AdvanceStep(x: Parts, connect: bool, ch: byte)
    requires Valid(x, connect)
    requires ParseUrlChar(StateOf(x, connect), ch) != Dead
    ensures var s := ParseUrlChar(StateOf(x, connect), ch);
            var y := Advance(x, s, ch);
            Valid(y, connect) && StateOf(y, connect) == s && Text(y) == Text(x) + [ch]
  {
    var s := ParseUrlChar(StateOf(x, connect), ch);
    AdvanceIsValid(x, connect, ch);
    assert EmptyAfter(x, s);
    AdvanceText(x, s, ch);
  }

  lemma AdvanceIsValid(x: Parts, connect: bool, ch: byte)
    requires Valid(x, connect)
    requires ParseUrlChar(StateOf(x, connect), ch) != Dead
    ensures var s := ParseUrlChar(StateOf(x, connect), ch);
            Valid(Advance(x, s, ch), connect) && StateOf(Advance(x, s, ch), connect) == s
  {
    hide IsUserinfo, IsAlpha;
    var s := ParseUrlChar(StateOf(x, connect), ch);
    var y := Advance(x, s, ch);
    AdvanceAuthority(x, connect, ch);
    AdvanceScheme(x, connect, ch);
    AdvancePathPart(x, connect, ch);
    AdvanceRestPart(x, connect, ch);
    hide Valid, ValidScheme, ValidAuthority, ValidPath, ValidRest, ParseUrlChar;
    UnfoldValid(y, connect);
  }

  lemma AdvanceScheme(x: Parts, connect: bool, ch: byte)
    requires Valid(x, connect)
    requires ParseUrlChar(StateOf(x, connect), ch) != Dead
    ensures ValidScheme(Advance(x, ParseUrlChar(StateOf(x, connect), ch), ch), connect)
    ensures StateOf(Advance(x, ParseUrlChar(StateOf(x, connect), ch), ch), connect) == ParseUrlChar(StateOf(x, connect), ch)
  {
    hide IsUserinfo, IsAlpha, ValidAuthority;
  }

  lemma AdvancePathPart(x: Parts, connect: bool, ch: byte)
    requires Valid(x, connect)
    requires ParseUrlChar(StateOf(x, connect), ch) != Dead
    ensures ValidPath(Advance(x, ParseUrlChar(StateOf(x, connect), ch), ch), connect)
  {
    hide IsUserinfo, IsAlpha, IsServer, ValidRest;
    var y := Advance(x, ParseUrlChar(StateOf(x, connect), ch), ch);
    assert x.path != [] && y.path != [] ==> y.path[0] == x.path[0];
  }

  lemma AdvanceRestPart(x: Parts, connect: bool, ch: byte)
    requires Valid(x, connect)
    requires ParseUrlChar(StateOf(x, connect), ch) != Dead
    ensures ValidRest(Advance(x, ParseUrlChar(StateOf(x, connect), ch), ch), connect)
  {
    hide IsUserinfo, IsAlpha, IsServer;
  }

  lemma AdvanceAuthority(x: Parts, connect: bool, ch: byte)
    requires Valid(x, connect)
    requires ParseUrlChar(StateOf(x, connect), ch) != Dead
    ensures ValidAuthority(Advance(x, ParseUrlChar(StateOf(x, connect), ch), ch), connect)
  {
    hide IsUserinfo, IsAlpha, ValidPath, ValidRest;
  }

  /** Which piece a byte that leads to this state belongs to. */
  function PieceOf(s: State): (k: nat)
    ensures k < 8
  {
    match s
    case SchemaSlash => 1
    case SchemaSlashSlash => 1
    case ServerStart => 1
    case Server => 2
    case ServerWithAt => 2
    case Path => 3
    case QueryStart => 4
    case Query => 5
    case FragmentStart => 6
    case Fragment => 7
    case _ => 0
  }

  lemma AdvanceText(x: Parts, s: State, ch: byte)
    requires EmptyAfter(x, s) && s != Dead && s != SpacesBeforeUrl
    requires s == SchemaSlash ==> x.slashes == 0 && ch == COLON
    requires s == SchemaSlashSlash ==> x.slashes == 1 && ch == SLASH
    requires s == ServerStart ==> x.slashes == 2 && ch == SLASH
    requires s == QueryStart ==> ch == QUESTION
    requires s == FragmentStart ==> ch == HASH
    ensures Text(Advance(x, s, ch)) == Text(x) + [ch]
  {
    var pieces, k := Pieces(x), PieceOf(s);
    assert AUTHORITY_MARK[..1] == AUTHORITY_MARK[..0] + [COLON];
    assert AUTHORITY_MARK[..2] == AUTHORITY_MARK[..1] + [SLASH];
    assert AUTHORITY_MARK[..3] == AUTHORITY_MARK[..2] + [SLASH];
    assert pieces[k] + [ch] == Pieces(Advance(x, s, ch))[k];
    assert pieces[k := pieces[k] + [ch]] == Pieces(Advance(x, s, ch));
    AppendTo(pieces, k, ch);
  }

  // ----- the grammar

  /** The parts read. */
  function Read(connect: bool, text: seq<byte>): Parts {
    if text == [] then NOTHING
    else Advance(Read(connect, text[..|text| - 1]), Scan(connect, text), text[|text| - 1])
  }

  /** What the machine takes is grammatical: it is the text of the parts read. */
  lemma {:induction false} ScanIsGrammatical(connect: bool, text: seq<byte>)
    requires Scan(connect, text) != Dead
    ensures var x := Read(connect, text);
            Valid(x, connect) && Text(x) == text && StateOf(x, connect) == Scan(connect, text)
    decreases |text|
  {
    hide Valid, ParseUrlChar;
    if text == [] {
      NothingIsValid(connect);
    } else {
      var ch := text[|text| - 1];
      DeadStays(ch);
      ScanIsGrammatical(connect, text[..|text| - 1]);
      AdvanceStep(Read(connect, text[..|text| - 1]), connect, ch);
    }
  }

  lemma DeadStays(ch: byte)
    ensures ParseUrlChar(Dead, ch) == Dead
  {
  }

  lemma NothingIsValid(connect: bool)
    ensures Valid(NOTHING, connect) && StateOf(NOTHING, connect) == Start(connect) && Text(NOTHING) == []
  {
    AllEmpty(Pieces(NOTHING));
  }

  /** The last byte of grammatical parts is one the machine takes there. */
  lemma RetractStep(x: Parts, connect: bool)
    requires Valid(x, connect) && x != NOTHING
    ensures var y := Retract(x, connect);
            && Valid(y, connect) && Text(x) == Text(y) + [Last(x, connect)]
            && ParseUrlChar(StateOf(y, connect), Last(x, connect)) == StateOf(x, connect)
            && Advance(y, StateOf(x, connect), Last(x, connect)) == x
  {
    hide Valid, ParseUrlChar, Advance, Retract, Last, StateOf, Text;
    RetractIsValid(x, connect);
    RetractState(x, connect);
    var y, s, ch := Retract(x, connect), StateOf(x, connect), Last(x, connect);
    AdvanceStep(y, connect, ch);
    RestoreParts(x, connect);
  }

  lemma RestoreParts(x: Parts, connect: bool)
    requires Valid(x, connect) && x != NOTHING
    ensures Advance(Retract(x, connect), StateOf(x, connect), Last(x, connect)) == x
  {
    hide ValidAuthority, ValidPath, ValidRest, IsAlpha;
  }

  lemma RetractIsValid(x: Parts, connect: bool)
    requires Valid(x, connect) && x != NOTHING
    ensures Valid(Retract(x, connect), connect)
  {
    hide Valid;
    assert ValidScheme(x, connect) && ValidAuthority(x, connect) && ValidPath(x, connect) && ValidRest(x, connect) by {
      UnfoldValid(x, connect);
    }
    RetractScheme(x, connect);
    RetractAuthority(x, connect);
    RetractPath(x, connect);
    RetractRest(x, connect);
    UnfoldValid(Retract(x, connect), connect);
  }

  lemma UnfoldValid(x: Parts, connect: bool)
    ensures Valid(x, connect) <==>
      ValidScheme(x, connect) && ValidAuthority(x, connect) && ValidPath(x, connect) && ValidRest(x, connect)
  {
  }

  lemma RetractScheme(x: Parts, connect: bool)
    requires ValidScheme(x, connect)
    ensures ValidScheme(Retract(x, connect), connect)
  {
    hide IsAlpha;
  }

  lemma RetractAuthority(x: Parts, connect: bool)
    requires ValidAuthority(x, connect)
    ensures ValidAuthority(Retract(x, connect), connect)
  {
    hide IsServer;
  }

  lemma RetractPath(x: Parts, connect: bool)
    requires ValidScheme(x, connect) && ValidPath(x, connect)
    ensures ValidPath(Retract(x, connect), connect)
  {
    hide IsAlpha;
  }

  lemma RetractRest(x: Parts, connect: bool)
    requires ValidScheme(x, connect) && ValidRest(x, connect)
    ensures ValidRest(Retract(x, connect), connect)
  {
    hide IsAlpha;
  }

  lemma RetractState(x: Parts, connect: bool)
    requires Valid(x, connect) && x != NOTHING
    ensures ParseUrlChar(StateOf(Retract(x, connect), connect), Last(x, connect)) == StateOf(x, connect)
    ensures StateOf(x, connect) != Dead
  {
    if StateOf(x, connect) in {Server, ServerWithAt} {
      RetractServerState(x, connect);
    } else if StateOf(x, connect) in {Fragment, FragmentStart, Query, QueryStart, Path} {
      RetractRestState(x, connect);
    } else {
      hide ValidAuthority, ValidPath, ValidRest, ParseServerChar;
    }
  }

  lemma RetractServerState(x: Parts, connect: bool)
    requires Valid(x, connect) && StateOf(x, connect) in {Server, ServerWithAt}
    ensures ParseUrlChar(StateOf(Retract(x, connect), connect), Last(x, connect)) == StateOf(x, connect)
  {
    hide ValidPath, ValidScheme;
    assert IsServer(x.authority[|x.authority| - 1]);
  }

  lemma RetractRestState(x: Parts, connect: bool)
    requires Valid(x, connect) && StateOf(x, connect) in {Fragment, FragmentStart, Query, QueryStart, Path}
    ensures ParseUrlChar(StateOf(Retract(x, connect), connect), Last(x, connect)) == StateOf(x, connect)
  {
    hide IsAlpha, IsUserinfo;
    assert x.query != [] ==> x.query[|x.query| - 1] in x.query;
  }

  /** Grammatical parts are read as themselves: no URL has two readings. */
  lemma {:induction false} GrammaticalIsScanned(connect: bool, x: Parts)
    requires Valid(x, connect)
    ensures Scan(connect, Text(x)) == StateOf(x, connect) != Dead
    ensures Read(connect, Text(x)) == x
    decreases |Text(x)|
  {
    hide Valid, ParseUrlChar, Retract, Last, Advance;
    if x == NOTHING {
      NothingIsValid(connect);
    } else {
      RetractStep(x, connect);
      var y := Retract(x, connect);
      GrammaticalIsScanned(connect, y);
      assert Text(x)[..|Text(x)| - 1] == Text(y);
    }
  }

  /** The machine survives exactly the texts of grammatical parts. */
  lemma ScanIff(connect: bool, text: seq<byte>)
    ensures Scan(connect, text) != Dead <==> exists x :: Valid(x, connect) && Text(x) == text
  {
    if Scan(connect, text) != Dead {
      ScanIsGrammatical(connect, text);
    } else {
      forall x | Valid(x, connect)
        ensures Text(x) != text
      {
        GrammaticalIsScanned(connect, x);
      }
    }
  }
}
