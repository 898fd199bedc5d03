/**
 The character classes of URLs, byte for byte against the alphabets they stand for, and
 what follows for URLs written over them.
 */
module UrlAlphabets {
  import opened Octets
  import opened HttpLength
  import opened UrlGrammar
  import opened UrlHost
  import opened UrlFields
  import opened UrlPartition

  const CAPITALS := "ABCDEFGHIJKLMNOPQRSTUVWXYZ"
  const SMALL := "abcdefghijklmnopqrstuvwxyz"
  const DIGITS := "0123456789"

  /** The byte is one of the characters. */
  predicate Among(ch: byte, alphabet: string) {
    exists i | 0 <= i < |alphabet| :: alphabet[i] as int == ch
  }

  predicate Letter(ch: byte) {
    Among(ch, CAPITALS) || Among(ch, SMALL)
  }

  predicate LetterOrDigit(ch: byte) {
    Letter(ch) || Among(ch, DIGITS)
  }

  lemma LettersAre(ch: byte)
    ensures IsAlpha(ch) <==> Letter(ch)
  {
    assert |CAPITALS| == |SMALL| == 26;
    assert forall i: nat | i < 26 :: CAPITALS[i] as int == 65 + i;
    assert forall i: nat | i < 26 :: SMALL[i] as int == 97 + i;
    if 65 <= ch <= 90 {
      assert CAPITALS[ch - 65] as int == ch;
    } else if 97 <= ch <= 122 {
      assert SMALL[ch - 97] as int == ch;
    }
  }

  lemma DigitsAre(ch: byte)
    ensures IsNum(ch) <==> Among(ch, DIGITS)
    ensures IsDecimal(ch) <==> Among(ch, DIGITS)
  {
    assert |DIGITS| == 10;
    assert forall i: nat | i < 10 :: DIGITS[i] as int == 48 + i;
    if 48 <= ch <= 57 {
      assert DIGITS[ch - 48] as int == ch;
    }
  }

  lemma HexDigitsAre(ch: byte)
    ensures IsHex(ch) <==> Among(ch, DIGITS) || Among(ch, "ABCDEF") || Among(ch, "abcdef")
  {
    DigitsAre(ch);
    var capitals, small := "ABCDEF", "abcdef";
    assert forall i: nat | i < 6 :: capitals[i] as int == 65 + i;
    assert forall i: nat | i < 6 :: small[i] as int == 97 + i;
    if 65 <= ch <= 70 {
      assert capitals[ch - 65] as int == ch;
    } else if 97 <= ch <= 102 {
      assert small[ch - 97] as int == ch;
    }
  }

  /** Each class is its alphabet. */
  lemma ClassesAre(ch: byte)
    ensures IsHost(ch) <==> LetterOrDigit(ch) || Among(ch, "-.")
    ensures IsAddress(ch) <==> Among(ch, DIGITS) || Among(ch, "ABCDEF") || Among(ch, "abcdef") || Among(ch, ":.")
    ensures IsZone(ch) <==> LetterOrDigit(ch) || Among(ch, "%.-_~")
    ensures IsUserinfo(ch) <==> LetterOrDigit(ch) || Among(ch, "-_.!~*'()") || Among(ch, "%;:&=+$,")
    ensures IsServer(ch) <==> LetterOrDigit(ch) || Among(ch, "-_.!~*'()") || Among(ch, "%;:&=+$,") || Among(ch, "[]@")
  {
    LettersAre(ch);
    DigitsAre(ch);
    HexDigitsAre(ch);
    MarksAre(ch);
    hide Among, IsAlpha, IsNum, IsHex;
  }

  lemma MarksAre(ch: byte)
    ensures Among(ch, "-.") <==> ch in {45, 46}
    ensures Among(ch, ":.") <==> ch in {58, 46}
    ensures Among(ch, "%.-_~") <==> ch in {37, 46, 45, 95, 126}
    ensures Among(ch, "-_.!~*'()") <==> ch in {45, 95, 46, 33, 126, 42, 39, 40, 41}
    ensures Among(ch, "%;:&=+$,") <==> ch in {37, 59, 58, 38, 61, 43, 36, 44}
    ensures Among(ch, "[]@") <==> ch in {91, 93, 64}
  {
    AmongTwo(ch, "-.");
    AmongTwo(ch, ":.");
    AmongCons(ch, "%.-_~");
    AmongCons(ch, ".-_~");
    AmongCons(ch, "-_~");
    AmongTwo(ch, "_~");
    AmongCons(ch, "-_.!~*'()");
    AmongCons(ch, "_.!~*'()");
    AmongCons(ch, ".!~*'()");
    AmongCons(ch, "!~*'()");
    AmongCons(ch, "~*'()");
    AmongCons(ch, "*'()");
    AmongCons(ch, "'()");
    AmongTwo(ch, "()");
    AmongCons(ch, "%;:&=+$,");
    AmongCons(ch, ";:&=+$,");
    AmongCons(ch, ":&=+$,");
    AmongCons(ch, "&=+$,");
    AmongCons(ch, "=+$,");
    AmongCons(ch, "+$,");
    AmongTwo(ch, "$,");
    AmongCons(ch, "[]@");
    AmongTwo(ch, "]@");
    hide Among;
  }

  lemma AmongTwo(ch: byte, s: string)
    requires |s| == 2
    ensures Among(ch, s) <==> ch == s[0] as int || ch == s[1] as int
  {
  }

  lemma AmongCons(ch: byte, s: string)
    requires s != ""
    ensures Among(ch, s) <==> ch == s[0] as int || Among(ch, s[1..])
  {
    if Among(ch, s) {
      var i :| 0 <= i < |s| && s[i] as int == ch;
      assert i > 0 ==> s[1..][i - 1] == s[i];
    }
    if Among(ch, s[1..]) {
      var i :| 0 <= i < |s[1..]| && s[1..][i] as int == ch;
      assert s[i + 1] == s[1..][i];
    }
  }

  /** The marks that divide a URL, as they are written. */
  lemma MarksAreWritten()
    ensures [SLASH, STAR, COLON, QUESTION, HASH, AT] == ['/' as int, '*' as int, ':' as int, '?' as int, '#' as int, '@' as int]
    ensures [OPEN, CLOSE, PERCENT] == ['[' as int, ']' as int, '%' as int]
  {
  }

  // ----- plain URLs

  /** `http://`. */
  const HTTP: seq<byte> := [104, 116, 116, 112, 58, 47, 47]

  predicate PlainHost(host: seq<byte>) {
    host != [] && forall i | 0 <= i < |host| :: LetterOrDigit(host[i]) || Among(host[i], "-.")
  }

  predicate PlainPort(port: seq<byte>) {
    (forall i | 0 <= i < |port| :: Among(port[i], DIGITS)) && Decimal(port) <= 65535
  }

  /** Empty, or from a slash on, without a question mark and a number sign. */
  predicate PlainPath(path: seq<byte>) {
    (path != [] ==> path[0] == 47) && 63 !in path && 35 !in path
  }

  /** A port behind its colon. */
  function PortText(port: seq<byte>): seq<byte> {
    if port == [] then [] else [58] + port
  }

  function PlainUrl(host: seq<byte>, port: seq<byte>, path: seq<byte>): seq<byte> {
    HTTP + host + PortText(port) + path
  }

  function PlainParts(authority: seq<byte>, path: seq<byte>): Parts {
    Parts(HTTP[..4], 3, authority, path, false, [], 0, [])
  }

  function PlainAuthority(host: seq<byte>, port: seq<byte>): Authority {
    Authority([], false, false, host, false, [], false, port != [], port)
  }

  lemma {:induction false} ConcatStep(pieces: seq<seq<byte>>, k: nat)
    requires k < |pieces|
    ensures Concat(pieces[..k + 1]) == Concat(pieces[..k]) + pieces[k]
  {
    assert pieces[..k + 1][..k] == pieces[..k];
  }

  lemma PlainText(authority: seq<byte>, path: seq<byte>)
    ensures Text(PlainParts(authority, path)) == HTTP + authority + path
  {
    var pieces := Pieces(PlainParts(authority, path));
    ConcatStep(pieces, 0);
    ConcatStep(pieces, 1);
    ConcatStep(pieces, 2);
    ConcatStep(pieces, 3);
    assert Concat(pieces[..0]) == [];
    hide Concat;
    assert Concat(pieces[..2]) == HTTP[..4] + AUTHORITY_MARK[..3] == HTTP;
    EmptyFrom(pieces, 4);
    assert Text(PlainParts(authority, path)) == Concat(pieces);
  }

  /** Empty pieces at the end add nothing. */
  lemma {:induction false} EmptyFrom(pieces: seq<seq<byte>>, k: nat)
    requires k <= |pieces| && forall i | k <= i < |pieces| :: pieces[i] == []
    ensures Concat(pieces) == Concat(pieces[..k])
    decreases |pieces| - k
  {
    if k == |pieces| {
      assert pieces[..k] == pieces;
    } else {
      EmptyFrom(pieces, k + 1);
      ConcatStep(pieces, k);
    }
  }

  /** So do empty pieces in the middle. */
  lemma {:induction false} EmptyBetween(pieces: seq<seq<byte>>, j: nat, k: nat)
    requires j <= k <= |pieces| && forall i | j <= i < k :: pieces[i] == []
    ensures Concat(pieces[..k]) == Concat(pieces[..j])
    decreases k
  {
    if j < k {
      EmptyBetween(pieces, j, k - 1);
      ConcatStep(pieces, k - 1);
    }
  }

  lemma PlainHostPieces(host: seq<byte>, port: seq<byte>)
    ensures var h := PlainAuthority(host, port);
            var pieces := HostPieces(h);
            && HostText(h) == Concat(pieces) && pieces[..9] == pieces
            && (forall i | 0 <= i < 3 || 4 <= i < 7 :: pieces[i] == [])
            && pieces[3] == host && pieces[7] == (if port == [] then [] else [58]) && pieces[8] == port
  {
    hide Concat;
  }

  lemma NinePieces(pieces: seq<seq<byte>>)
    requires |pieces| == 9 && forall i | 0 <= i < 3 || 4 <= i < 7 :: pieces[i] == []
    ensures Concat(pieces) == pieces[3] + pieces[7] + pieces[8]
  {
    hide Concat;
    EmptyBetween(pieces, 0, 3);
    ConcatStep(pieces, 3);
    EmptyBetween(pieces, 4, 7);
    ConcatStep(pieces, 7);
    ConcatStep(pieces, 8);
    NoPieces(pieces);
    assert pieces[..9] == pieces;
  }

  lemma NoPieces(pieces: seq<seq<byte>>)
    ensures Concat(pieces[..0]) == []
  {
  }

  lemma PlainHostText(host: seq<byte>, port: seq<byte>)
    ensures HostText(PlainAuthority(host, port)) == host + PortText(port)
  {
    PlainHostPieces(host, port);
    hide Concat, HostPieces, HostText, PlainAuthority;
    NinePieces(HostPieces(PlainAuthority(host, port)));
  }

  /** Where the parts of a plain URL begin. */
  lemma PlainOffsets(authority: seq<byte>, path: seq<byte>)
    ensures var pieces := Pieces(PlainParts(authority, path));
            Offset(pieces, 0) == 0 && Offset(pieces, 2) == 7 && Offset(pieces, 3) == 7 + |authority|
  {
    var pieces := Pieces(PlainParts(authority, path));
    PieceAt(pieces, 0);
    PieceAt(pieces, 1);
    PieceAt(pieces, 2);
    assert pieces[..0] == [];
    hide Concat;
  }

  lemma PlainHostOffsets(host: seq<byte>, port: seq<byte>)
    ensures var pieces := HostPieces(PlainAuthority(host, port));
            Offset(pieces, 3) == 0 && Offset(pieces, 8) == |host| + if port == [] then 0 else 1
  {
    var pieces := HostPieces(PlainAuthority(host, port));
    PieceAt(pieces, 0);
    PieceAt(pieces, 1);
    PieceAt(pieces, 2);
    PieceAt(pieces, 3);
    PieceAt(pieces, 4);
    PieceAt(pieces, 5);
    PieceAt(pieces, 6);
    PieceAt(pieces, 7);
    assert pieces[..0] == [];
    hide Concat;
  }

  /** Bytes of which none divides an authority. */
  predicate Undivided(text: seq<byte>) {
    forall i | 0 <= i < |text| :: !Among(text[i], "/?#:@[]")
  }

  lemma DividersAre(ch: byte)
    ensures Among(ch, "/?#:@[]") <==> ch in {47, 63, 35, 58, 64, 91, 93}
  {
    AmongCons(ch, "/?#:@[]");
    AmongCons(ch, "?#:@[]");
    AmongCons(ch, "#:@[]");
    AmongCons(ch, ":@[]");
    AmongCons(ch, "@[]");
    AmongTwo(ch, "[]");
    hide Among;
  }

  lemma PlainByte(ch: byte)
    requires LetterOrDigit(ch) || Among(ch, "-.") || Among(ch, DIGITS) || ch == 58
    ensures IsServer(ch) && ch != AT
  {
    ClassesAre(ch);
    LettersAre(ch);
    DigitsAre(ch);
    MarksAre(ch);
    hide Among;
  }

  lemma PlainIsUrl(host: seq<byte>, port: seq<byte>, path: seq<byte>)
    requires PlainHost(host) && PlainPort(port) && PlainPath(path)
    ensures IsUrl(false, PlainUrl(host, port, path), PlainParts(host + PortText(port), path), PlainAuthority(host, port))
  {
    var x, h := PlainParts(host + PortText(port), path), PlainAuthority(host, port);
    PlainText(host + PortText(port), path);
    PlainHostText(host, port);
    PlainValid(host, port, path);
    PlainAuthorityValid(host, port);
    PlainIs(host, port, path);
    hide Text, HostText, Valid, ValidAuthorityParts, Complete, Decimal, PlainHost, PlainUrl, PortText, Among, PlainPath;
  }

  lemma PlainIs(host: seq<byte>, port: seq<byte>, path: seq<byte>)
    ensures HTTP + (host + PortText(port)) + path == PlainUrl(host, port, path) != []
  {
  }

  lemma PlainValid(host: seq<byte>, port: seq<byte>, path: seq<byte>)
    requires PlainHost(host) && PlainPort(port) && PlainPath(path)
    ensures Valid(PlainParts(host + PortText(port), path), false) && !FoundAt(PlainParts(host + PortText(port), path))
    ensures host + PortText(port) != []
  {
    var authority := host + PortText(port);
    hide Among, Decimal, IsServer, LetterOrDigit;
    forall i | 0 <= i < |authority|
      ensures IsServer(authority[i]) && authority[i] != AT
    {
      PlainByte(authority[i]);
    }
    forall i | 0 <= i < 4
      ensures IsAlpha(HTTP[i])
    {
    }
  }

  lemma PlainAuthorityValid(host: seq<byte>, port: seq<byte>)
    requires PlainHost(host) && PlainPort(port)
    ensures ValidAuthorityParts(PlainAuthority(host, port), false) && Complete(PlainAuthority(host, port))
  {
    hide Among, Decimal, IsHost, IsNum, LetterOrDigit;
    forall i | 0 <= i < |host|
      ensures IsHost(host[i])
    {
      ClassesAre(host[i]);
    }
    forall i | 0 <= i < |port|
      ensures IsNum(port[i])
    {
      DigitsAre(port[i]);
    }
  }

  /**
   A plain URL is accepted: its host, its port and its path are reported where they lie,
   besides the scheme, and nothing else.
   */
  lemma PlainIsAccepted(host: seq<byte>, port: seq<byte>, path: seq<byte>)
    requires PlainHost(host) && PlainPort(port) && PlainPath(path) && |PlainUrl(host, port, path)| <= 65535
    ensures var r := Parse(false, PlainUrl(host, port, path));
            && r.Accepted? && r.url.port == (if port == [] then 0 else Decimal(port))
            && var f, p := r.url.fields, |HTTP + host + PortText(port)|;
            && (UfSchema in f && LiesAt(f[UfSchema], 0, 4))
            && (UfHost in f && LiesAt(f[UfHost], 7, |host|))
            && (UfPort in f <==> port != []) && (port != [] ==> LiesAt(f[UfPort], 8 + |host|, |port|))
            && (UfPath in f <==> path != []) && (path != [] ==> LiesAt(f[UfPath], p, |path|))
            && UfQuery !in f && UfFragment !in f && UfUserinfo !in f
  {
    hide *;
    var x, h := PlainParts(host + PortText(port), path), PlainAuthority(host, port);
    PlainIsUrl(host, port, path);
    GrammaticalIsAccepted(false, PlainUrl(host, port, path), x, h);
    var u := Parse(false, PlainUrl(host, port, path)).url;
    PlainReports(host, port, path, u, UfSchema);
    PlainReports(host, port, path, u, UfHost);
    PlainReports(host, port, path, u, UfPort);
    PlainReports(host, port, path, u, UfPath);
    PlainReports(host, port, path, u, UfQuery);
    PlainReports(host, port, path, u, UfFragment);
    PlainReports(host, port, path, u, UfUserinfo);
    PlainLengths(host, port);
  }

  lemma PlainLengths(host: seq<byte>, port: seq<byte>)
    ensures |HTTP + host + PortText(port)| == 7 + |host| + (if port == [] then 0 else 1 + |port|)
    ensures PlainHost(host) ==> host != []
  {
    hide Among;
  }

  /** A field of a plain URL. */
  function PlainRun(host: seq<byte>, port: seq<byte>, path: seq<byte>, f: Field): (nat, seq<byte>) {
    match f
    case UfSchema => (0, HTTP[..4])
    case UfHost => (7, host)
    case UfPort => (8 + |host|, port)
    case UfPath => (7 + |host| + (if port == [] then 0 else 1 + |port|), path)
    case _ => (0, [])
  }

  lemma PlainComponent(host: seq<byte>, port: seq<byte>, path: seq<byte>, f: Field)
    ensures var x, h := PlainParts(host + PortText(port), path), PlainAuthority(host, port);
            && Component(x, h, f) == PlainRun(host, port, path, f).1
            && (Component(x, h, f) != [] ==> StartOf(x, h, f) == PlainRun(host, port, path, f).0)
  {
    PlainOffsets(host + PortText(port), path);
    PlainHostOffsets(host, port);
    hide Offset, Pieces, HostPieces;
    assert host + [] + [] == host;
  }

  lemma PlainReports(host: seq<byte>, port: seq<byte>, path: seq<byte>, u: Url, f: Field)
    requires Reports(u, PlainParts(host + PortText(port), path), PlainAuthority(host, port))
    ensures var (off, run) := PlainRun(host, port, path, f);
            && (f in u.fields <==> run != []) && (f in u.fields ==> LiesAt(u.fields[f], off, |run|))
            && u.port == (if port == [] then 0 else Decimal(port))
            && match f
               case UfSchema => off == 0 && |run| == 4
               case UfHost => off == 7 && run == host
               case UfPort => off == 8 + |host| && run == port
               case UfPath => off == 7 + |host| + (if port == [] then 0 else 1 + |port|) && run == path
               case _ => run == []
  {
    PlainComponent(host, port, path, f);
    hide Component, StartOf, Decimal;
  }

  // ----- every other byte is refused

  predicate AllUserinfo(host: seq<byte>) {
    forall i | 0 <= i < |host| :: IsUserinfo(host[i])
  }

  predicate AllHost(host: seq<byte>) {
    forall i | 0 <= i < |host| :: IsHost(host[i])
  }

  lemma UndividedByte(ch: byte)
    requires !Among(ch, "/?#:@[]")
    ensures ch !in {SLASH, QUESTION, HASH, COLON, AT, OPEN, CLOSE}
    ensures IsHost(ch) ==> IsUserinfo(ch)
  {
    DividersAre(ch);
    hide Among;
  }

  lemma SplitLast(host: seq<byte>)
    requires host != []
    ensures var text := HTTP + host; text[..|text| - 1] == HTTP + host[..|host| - 1] && text[|text| - 1] == host[|host| - 1]
  {
  }

  /** The first machine on an authority without delimiters. */
  lemma {:induction false} ScanServer(host: seq<byte>)
    requires Undivided(host)
    ensures Scan(false, HTTP + host) == if host == [] then ServerStart else if AllUserinfo(host) then Server else Dead
    decreases |host|
  {
    hide Among, IsUserinfo;
    if host == [] {
      PlainText([], []);
      assert HTTP + [] + [] == HTTP + [];
      EmptyPlain();
      GrammaticalIsScanned(false, PlainParts([], []));
      hide Scan, Text;
    } else {
      var front, ch := host[..|host| - 1], host[|host| - 1];
      ScanServer(front);
      SplitLast(host);
      UndividedByte(ch);
      assert AllUserinfo(host) <==> AllUserinfo(front) && IsUserinfo(ch);
    }
  }

  lemma EmptyPlain()
    ensures Valid(PlainParts([], []), false) && StateOf(PlainParts([], []), false) == ServerStart
  {
  }

  /** The second machine on it. */
  lemma {:induction false} ScanPlainHost(host: seq<byte>)
    requires Undivided(host)
    ensures ScanHost(false, host) == if host == [] then HostStart else if AllHost(host) then Host else HostDead
    decreases |host|
  {
    hide Among, IsHost;
    if host != [] {
      var front, ch := host[..|host| - 1], host[|host| - 1];
      ScanPlainHost(front);
      UndividedByte(ch);
      assert AllHost(host) <==> AllHost(front) && IsHost(ch);
    }
  }

  lemma ServerValid(host: seq<byte>)
    requires Undivided(host) && AllUserinfo(host)
    ensures Valid(PlainParts(host, [47]), false) && !FoundAt(PlainParts(host, [47]))
  {
    hide Among, IsUserinfo;
    forall i | 0 <= i < |host|
      ensures IsServer(host[i]) && host[i] != AT
    {
      UndividedByte(host[i]);
    }
    forall i | 0 <= i < 4
      ensures IsAlpha(HTTP[i])
    {
    }
  }

  /** A host without delimiters is accepted exactly if it is not empty and has letters, digits, points and hyphens only. */
  lemma HostIsPlainIff(host: seq<byte>)
    requires Undivided(host) && |host| <= 65527
    ensures Parse(false, HTTP + host + [47]).Accepted? <==> PlainHost(host)
  {
    hide *;
    var text := HTTP + host + [47];
    ScanServer(host);
    LastSlash(host);
    PlainIffHost(host);
    NoPort(host);
    NoHostByte(host);
    if !AllUserinfo(host) {
      NotScanned(text, HTTP + host);
    } else if PlainHost(host) {
      PlainPathSlash();
      PlainIsAccepted(host, [], [47]);
    } else {
      ServerValid(host);
      PlainText(host, [47]);
      GrammaticalIsScanned(false, PlainParts(host, [47]));
      HostRefused(host, text);
    }
  }

  lemma LastSlash(host: seq<byte>)
    ensures var text := HTTP + host + [47]; text[..|text| - 1] == HTTP + host && text != []
  {
  }

  lemma PlainIffHost(host: seq<byte>)
    ensures PlainHost(host) <==> host != [] && AllHost(host)
  {
    hide IsHost, LetterOrDigit, Among;
    forall i | 0 <= i < |host|
      ensures IsHost(host[i]) <==> LetterOrDigit(host[i]) || Among(host[i], "-.")
    {
      ClassesAre(host[i]);
    }
  }

  lemma NotScanned(text: seq<byte>, front: seq<byte>)
    requires text != [] && text[..|text| - 1] == front && Scan(false, front) == Dead
    ensures Parse(false, text).Rejected?
  {
    assert Scan(false, text) == Dead;
  }

  lemma NoHostByte(host: seq<byte>)
    requires Undivided(host)
    ensures AllHost(host) ==> AllUserinfo(host)
    ensures host == [] ==> AllUserinfo(host)
  {
    hide Among, IsHost, IsUserinfo;
    forall i | 0 <= i < |host|
      ensures IsHost(host[i]) ==> IsUserinfo(host[i])
    {
      UndividedByte(host[i]);
    }
  }

  lemma PlainPathSlash()
    ensures PlainPath([47]) && PlainPort([])
  {
  }

  lemma NoPort(host: seq<byte>)
    ensures PlainUrl(host, [], [47]) == HTTP + host + [47]
    ensures |HTTP + host + [47]| == |host| + 8
  {
  }

  lemma HostRefused(host: seq<byte>, text: seq<byte>)
    requires Undivided(host) && |text| <= 65535 && text == Text(PlainParts(host, [47])) && text != []
    requires Read(false, text) == PlainParts(host, [47]) && Scan(false, text) != Dead
    requires !FoundAt(PlainParts(host, [47])) && (host == [] || !AllHost(host))
    ensures Parse(false, text).Rejected?
  {
    var x := PlainParts(host, [47]);
    FieldsSet(x);
    if host != [] {
      AuthorityIsSeen(text, x);
      ScanPlainHost(host);
      hide Text, MainFields, ScanHost, Scan, Read, HostFields, PortDigits, AuthorityOf, FoundAt, Undivided, AllHost;
      assert !HostAccepted(text, x);
    } else {
      hide Text, MainFields, ScanHost, Scan, Read, HostFields, PortDigits, AuthorityOf, FoundAt, Undivided, AllHost;
    }
  }
}
