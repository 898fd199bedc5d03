/**
 The second reading of the authority: userinfo, host and port.
 */
module UrlHost {
  import opened Octets
  import opened UrlGrammar

  datatype HostState = HostDead | UserinfoStart | Userinfo | HostStart | V6Start | Host
                     | V6 | V6End | V6ZoneStart | V6Zone | PortStart | Port

  /** `http_parse_host_char`. */
  function ParseHostChar(s: HostState, ch: byte): HostState {
    match s
    case UserinfoStart => ParseUserinfoChar(ch)
    case Userinfo => ParseUserinfoChar(ch)
    case HostStart => if ch == OPEN then V6Start else if IsHost(ch) then Host else HostDead
    case Host => if IsHost(ch) then Host else if ch == COLON then PortStart else HostDead
    case V6End => if ch == COLON then PortStart else HostDead
    case V6 =>
      if ch == CLOSE then V6End else if IsAddress(ch) then V6 else if ch == PERCENT then V6ZoneStart else HostDead
    case V6Start => if IsAddress(ch) then V6 else HostDead
    case V6Zone => if ch == CLOSE then V6End else if IsZone(ch) then V6Zone else HostDead
    case V6ZoneStart => if IsZone(ch) then V6Zone else HostDead
    case Port => if IsNum(ch) then Port else HostDead
    case PortStart => if IsNum(ch) then Port else HostDead
    case HostDead => HostDead
  }

  function ParseUserinfoChar(ch: byte): HostState {
    if ch == AT then HostStart else if IsUserinfo(ch) then Userinfo else HostDead
  }

  function HostBegin(foundAt: bool): HostState {
    if foundAt then UserinfoStart else HostStart
  }

  function ScanHost(foundAt: bool, text: seq<byte>): HostState {
    if text == [] then HostBegin(foundAt)
    else ParseHostChar(ScanHost(foundAt, text[..|text| - 1]), text[|text| - 1])
  }

  /** An authority in its parts; the flags say which of the delimiters were seen. */
  datatype Authority = Authority(userinfo: seq<byte>, at: bool, open: bool, address: seq<byte>, percent: bool,
                                 zone: seq<byte>, close: bool, colon: bool, port: seq<byte>)

  const NO_AUTHORITY := Authority([], false, false, [], false, [], false, false, [])

  function Mark(seen: bool, ch: byte): seq<byte> {
    if seen then [ch] else []
  }

  function HostPieces(h: Authority): (pieces: seq<seq<byte>>)
    ensures |pieces| == 9
  {
    [h.userinfo, Mark(h.at, AT), Mark(h.open, OPEN), h.address, Mark(h.percent, PERCENT), h.zone,
     Mark(h.close, CLOSE), Mark(h.colon, COLON), h.port]
  }

  function HostText(h: Authority): seq<byte> {
    Concat(HostPieces(h))
  }

  /** The host may begin. */
  predicate PastUserinfo(h: Authority, foundAt: bool) {
    h.at || !foundAt
  }

  predicate ValidUserinfo(h: Authority, foundAt: bool) {
    && (h.userinfo != [] || h.at ==> foundAt)
    && forall i | 0 <= i < |h.userinfo| :: IsUserinfo(h.userinfo[i])
  }

  predicate ValidHost(h: Authority, foundAt: bool) {
    && (h.open || h.address != [] ==> PastUserinfo(h, foundAt))
    && (forall i | 0 <= i < |h.address| :: if h.open then IsAddress(h.address[i]) else IsHost(h.address[i]))
    && (h.percent ==> h.open && h.address != [])
    && (h.zone != [] ==> h.percent)
    && (forall i | 0 <= i < |h.zone| :: IsZone(h.zone[i]))
    && (h.close ==> h.open && h.address != [] && (h.percent ==> h.zone != []))
  }

  predicate ValidPort(h: Authority) {
    && (h.colon ==> h.close || (!h.open && h.address != []))
    && (h.port != [] ==> h.colon)
    && forall i | 0 <= i < |h.port| :: IsNum(h.port[i])
  }

  predicate ValidAuthorityParts(h: Authority, foundAt: bool) {
    ValidUserinfo(h, foundAt) && ValidHost(h, foundAt) && ValidPort(h)
  }

  function HostStateOf(h: Authority, foundAt: bool): HostState {
    if h.port != [] then Port
    else if h.colon then PortStart
    else if h.close then V6End
    else if h.zone != [] then V6Zone
    else if h.percent then V6ZoneStart
    else if h.address != [] then (if h.open then V6 else Host)
    else if h.open then V6Start
    else if PastUserinfo(h, foundAt) then HostStart
    else if h.userinfo != [] then Userinfo
    else UserinfoStart
  }

  function AdvanceHost(h: Authority, s: HostState, ch: byte): Authority {
    match s
    case Userinfo => h.(userinfo := h.userinfo + [ch])
    case HostStart => h.(at := true)
    case V6Start => h.(open := true)
    case Host => h.(address := h.address + [ch])
    case V6 => h.(address := h.address + [ch])
    case V6ZoneStart => h.(percent := true)
    case V6Zone => h.(zone := h.zone + [ch])
    case V6End => h.(close := true)
    case PortStart => h.(colon := true)
    case Port => h.(port := h.port + [ch])
    case _ => h
  }

  function HostPieceOf(s: HostState): (k: nat)
    ensures k < 9
  {
    match s
    case HostStart => 1
    case V6Start => 2
    case Host => 3
    case V6 => 3
    case V6ZoneStart => 4
    case V6Zone => 5
    case V6End => 6
    case PortStart => 7
    case Port => 8
    case _ => 0
  }

  /** What comes after the piece a byte belongs to is still empty. */
  predicate EmptyAfterHost(h: Authority, s: HostState) {
    var k := HostPieceOf(s);
    && (k < 8 ==> h.port == []) && (k <= 7 ==> !h.colon) && (k <= 6 ==> !h.close) && (k < 5 ==> h.zone == [])
    && (k <= 4 ==> !h.percent) && (k < 3 ==> h.address == []) && (k <= 2 ==> !h.open) && (k <= 1 ==> !h.at)
  }

  lemma AdvanceHostText(h: Authority, s: HostState, ch: byte)
    requires EmptyAfterHost(h, s) && s !in {HostDead, UserinfoStart}
    requires s == HostStart ==> ch == AT
    requires s == V6Start ==> ch == OPEN
    requires s == V6ZoneStart ==> ch == PERCENT
    requires s == V6End ==> ch == CLOSE
    requires s == PortStart ==> ch == COLON
    ensures HostText(AdvanceHost(h, s, ch)) == HostText(h) + [ch]
  {
    var pieces, k := HostPieces(h), HostPieceOf(s);
    assert pieces[k] + [ch] == HostPieces(AdvanceHost(h, s, ch))[k];
    assert pieces[k := pieces[k] + [ch]] == HostPieces(AdvanceHost(h, s, ch));
    AppendTo(pieces, k, ch);
  }

  lemma AdvanceHostStep(h: Authority, foundAt: bool, ch: byte)
    requires ValidAuthorityParts(h, foundAt)
    requires ParseHostChar(HostStateOf(h, foundAt), ch) != HostDead
    ensures var s := ParseHostChar(HostStateOf(h, foundAt), ch);
            var g := AdvanceHost(h, s, ch);
            ValidAuthorityParts(g, foundAt) && HostStateOf(g, foundAt) == s && HostText(g) == HostText(h) + [ch]
  {
    AdvanceHostIsValid(h, foundAt, ch);
    hide IsUserinfo, IsHost, IsNum, IsAddress, IsZone, HostText;
    AdvanceHostText(h, ParseHostChar(HostStateOf(h, foundAt), ch), ch);
  }

  lemma AdvanceHostIsValid(h: Authority, foundAt: bool, ch: byte)
    requires ValidAuthorityParts(h, foundAt)
    requires ParseHostChar(HostStateOf(h, foundAt), ch) != HostDead
    ensures var s := ParseHostChar(HostStateOf(h, foundAt), ch);
            ValidAuthorityParts(AdvanceHost(h, s, ch), foundAt) && HostStateOf(AdvanceHost(h, s, ch), foundAt) == s
  {
    AdvanceAddress(h, foundAt, ch);
    hide IsUserinfo, IsHost, IsNum, IsAddress, IsZone, ValidHost;
    var g := AdvanceHost(h, ParseHostChar(HostStateOf(h, foundAt), ch), ch);
    assert ValidUserinfo(g, foundAt);
    assert ValidPort(g);
  }

  lemma AdvanceAddress(h: Authority, foundAt: bool, ch: byte)
    requires ValidAuthorityParts(h, foundAt)
    requires ParseHostChar(HostStateOf(h, foundAt), ch) != HostDead
    ensures var s := ParseHostChar(HostStateOf(h, foundAt), ch);
            ValidHost(AdvanceHost(h, s, ch), foundAt) && HostStateOf(AdvanceHost(h, s, ch), foundAt) == s
  {
    hide IsUserinfo, IsHost, IsNum, IsAddress, IsZone, ValidUserinfo;
  }

  function HostLast(h: Authority, foundAt: bool): byte
    requires ValidAuthorityParts(h, foundAt)
  {
    match HostStateOf(h, foundAt)
    case Userinfo => h.userinfo[|h.userinfo| - 1]
    case HostStart => AT
    case V6Start => OPEN
    case Host => h.address[|h.address| - 1]
    case V6 => h.address[|h.address| - 1]
    case V6ZoneStart => PERCENT
    case V6Zone => h.zone[|h.zone| - 1]
    case V6End => CLOSE
    case PortStart => COLON
    case Port => h.port[|h.port| - 1]
    case _ => 0
  }

  function RetractHost(h: Authority, foundAt: bool): Authority {
    match HostStateOf(h, foundAt)
    case Userinfo => h.(userinfo := h.userinfo[..|h.userinfo| - 1])
    case HostStart => h.(at := false)
    case V6Start => h.(open := false)
    case Host => h.(address := h.address[..|h.address| - 1])
    case V6 => h.(address := h.address[..|h.address| - 1])
    case V6ZoneStart => h.(percent := false)
    case V6Zone => h.(zone := h.zone[..|h.zone| - 1])
    case V6End => h.(close := false)
    case PortStart => h.(colon := false)
    case Port => h.(port := h.port[..|h.port| - 1])
    case _ => h
  }

  lemma RetractHostStep(h: Authority, foundAt: bool)
    requires ValidAuthorityParts(h, foundAt) && h != NO_AUTHORITY
    ensures var g, s, ch := RetractHost(h, foundAt), HostStateOf(h, foundAt), HostLast(h, foundAt);
            && ValidAuthorityParts(g, foundAt) && HostText(h) == HostText(g) + [ch]
            && ParseHostChar(HostStateOf(g, foundAt), ch) == s != HostDead
            && AdvanceHost(g, s, ch) == h
  {
    RetractHostIsValid(h, foundAt);
    RetractHostState(h, foundAt);
    RestoreHost(h, foundAt);
    hide ParseHostChar, AdvanceHost, RetractHost, HostStateOf, HostLast, ValidAuthorityParts, HostText;
    AdvanceHostStep(RetractHost(h, foundAt), foundAt, HostLast(h, foundAt));
  }

  lemma RestoreHost(h: Authority, foundAt: bool)
    requires ValidAuthorityParts(h, foundAt) && h != NO_AUTHORITY
    ensures AdvanceHost(RetractHost(h, foundAt), HostStateOf(h, foundAt), HostLast(h, foundAt)) == h
  {
    hide ValidUserinfo, ValidHost, ValidPort;
    match HostStateOf(h, foundAt)
    case Userinfo => assert h.userinfo[..|h.userinfo| - 1] + [HostLast(h, foundAt)] == h.userinfo;
    case Host => assert h.address[..|h.address| - 1] + [HostLast(h, foundAt)] == h.address;
    case V6 => assert h.address[..|h.address| - 1] + [HostLast(h, foundAt)] == h.address;
    case V6Zone => assert h.zone[..|h.zone| - 1] + [HostLast(h, foundAt)] == h.zone;
    case Port => assert h.port[..|h.port| - 1] + [HostLast(h, foundAt)] == h.port;
    case HostStart => OnlyHostStart(h, foundAt);
    case _ =>
  }

  lemma OnlyHostStart(h: Authority, foundAt: bool)
    requires ValidAuthorityParts(h, foundAt) && h != NO_AUTHORITY && HostStateOf(h, foundAt) == HostStart
    ensures h.at
  {
  }

  lemma RetractHostIsValid(h: Authority, foundAt: bool)
    requires ValidAuthorityParts(h, foundAt)
    ensures ValidAuthorityParts(RetractHost(h, foundAt), foundAt)
  {
    RetractUserinfo(h, foundAt);
    RetractAddress(h, foundAt);
    RetractPort(h, foundAt);
  }

  lemma RetractUserinfo(h: Authority, foundAt: bool)
    requires ValidUserinfo(h, foundAt)
    ensures ValidUserinfo(RetractHost(h, foundAt), foundAt)
  {
    hide IsUserinfo;
  }

  lemma RetractAddress(h: Authority, foundAt: bool)
    requires ValidHost(h, foundAt) && ValidPort(h)
    ensures ValidHost(RetractHost(h, foundAt), foundAt)
  {
    hide IsHost, IsAddress, IsZone, IsNum;
  }

  lemma RetractPort(h: Authority, foundAt: bool)
    requires ValidPort(h)
    ensures ValidPort(RetractHost(h, foundAt))
  {
    hide IsNum;
  }

  lemma RetractHostState(h: Authority, foundAt: bool)
    requires ValidAuthorityParts(h, foundAt) && h != NO_AUTHORITY
    ensures ParseHostChar(HostStateOf(RetractHost(h, foundAt), foundAt), HostLast(h, foundAt)) == HostStateOf(h, foundAt)
    ensures HostStateOf(h, foundAt) != HostDead
  {
    DelimitersDiffer();
    hide IsUserinfo, IsHost, IsNum, IsAddress, IsZone;
    if HostStateOf(h, foundAt) in {Port, PortStart, V6End} {
      RetractPortState(h, foundAt);
    } else if HostStateOf(h, foundAt) in {V6Zone, V6ZoneStart} {
      RetractZoneState(h, foundAt);
    }
  }

  lemma RetractPortState(h: Authority, foundAt: bool)
    requires ValidAuthorityParts(h, foundAt) && HostStateOf(h, foundAt) in {Port, PortStart, V6End}
    ensures ParseHostChar(HostStateOf(RetractHost(h, foundAt), foundAt), HostLast(h, foundAt)) == HostStateOf(h, foundAt)
  {
    DelimitersDiffer();
    hide IsUserinfo, IsHost, IsNum, IsAddress, IsZone, ValidUserinfo;
  }

  lemma RetractZoneState(h: Authority, foundAt: bool)
    requires ValidAuthorityParts(h, foundAt) && HostStateOf(h, foundAt) in {V6Zone, V6ZoneStart}
    ensures ParseHostChar(HostStateOf(RetractHost(h, foundAt), foundAt), HostLast(h, foundAt)) == HostStateOf(h, foundAt)
  {
    DelimitersDiffer();
    hide IsUserinfo, IsHost, IsNum, IsAddress, IsZone, ValidUserinfo;
  }

  /** No delimiter is a byte of the part before it. */
  lemma DelimitersDiffer()
    ensures !IsUserinfo(AT) && !IsHost(OPEN) && !IsHost(COLON)
    ensures !IsAddress(CLOSE) && !IsAddress(PERCENT) && !IsZone(CLOSE)
  {
  }

  // ----- the grammar

  function ReadHost(foundAt: bool, text: seq<byte>): Authority {
    if text == [] then NO_AUTHORITY
    else AdvanceHost(ReadHost(foundAt, text[..|text| - 1]), ScanHost(foundAt, text), text[|text| - 1])
  }

  lemma NoAuthority(foundAt: bool)
    ensures ValidAuthorityParts(NO_AUTHORITY, foundAt) && HostText(NO_AUTHORITY) == []
    ensures HostStateOf(NO_AUTHORITY, foundAt) == HostBegin(foundAt)
  {
    AllEmpty(HostPieces(NO_AUTHORITY));
  }

  lemma HostDeadStays(ch: byte)
    ensures ParseHostChar(HostDead, ch) == HostDead
  {
  }

  lemma {:induction false} ScanHostIsGrammatical(foundAt: bool, text: seq<byte>)
    requires ScanHost(foundAt, text) != HostDead
    ensures var h := ReadHost(foundAt, text);
            && ValidAuthorityParts(h, foundAt) && HostText(h) == text
            && HostStateOf(h, foundAt) == ScanHost(foundAt, text)
    decreases |text|
  {
    hide ValidAuthorityParts, ParseHostChar, AdvanceHost, HostText, HostStateOf;
    if text == [] {
      NoAuthority(foundAt);
    } else {
      var ch := text[|text| - 1];
      HostDeadStays(ch);
      ScanHostIsGrammatical(foundAt, text[..|text| - 1]);
      AdvanceHostStep(ReadHost(foundAt, text[..|text| - 1]), foundAt, ch);
    }
  }

  lemma {:induction false} GrammaticalHostIsScanned(foundAt: bool, h: Authority)
    requires ValidAuthorityParts(h, foundAt)
    ensures ScanHost(foundAt, HostText(h)) == HostStateOf(h, foundAt) != HostDead
    ensures ReadHost(foundAt, HostText(h)) == h
    decreases |HostText(h)|
  {
    hide ValidAuthorityParts, ParseHostChar, AdvanceHost, RetractHost, HostLast, HostText, HostStateOf;
    if h == NO_AUTHORITY {
      NoAuthority(foundAt);
    } else {
      RetractHostStep(h, foundAt);
      var g := RetractHost(h, foundAt);
      GrammaticalHostIsScanned(foundAt, g);
      assert HostText(h)[..|HostText(h)| - 1] == HostText(g);
    }
  }

  /** The states a host may end in. */
  predicate HostEnds(s: HostState) {
    s in {Host, V6End, Port}
  }

  /** A whole authority: a host, closed if it is bracketed, and digits after the colon. */
  predicate Complete(h: Authority) {
    && h.address != [] && (h.open ==> h.close)
    && (h.colon ==> h.port != [])
  }

  lemma CompleteIff(h: Authority, foundAt: bool)
    requires ValidAuthorityParts(h, foundAt)
    ensures HostEnds(HostStateOf(h, foundAt)) <==> Complete(h)
  {
    hide IsUserinfo, IsHost, IsNum, IsAddress, IsZone;
  }
}
