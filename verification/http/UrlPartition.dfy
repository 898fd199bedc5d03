/**
 What a caller of the URL parser may rely on: the accepted inputs are exactly the
 grammatical URLs, and the fields divide them up.
 */
module UrlPartition {
  import opened Octets
  import opened UrlGrammar
  import opened UrlHost
  import opened UrlFields
  import opened HttpLength

  /** `text` is a URL with the parts `x`, whose authority, if it has one, has the parts `h`. */
  predicate IsUrl(connect: bool, text: seq<byte>, x: Parts, h: Authority) {
    && text != [] && Valid(x, connect) && Text(x) == text
    && (x.scheme != [] ==> x.authority != [])
    && (if x.authority == [] then h == NO_AUTHORITY
        else ValidAuthorityParts(h, FoundAt(x)) && HostText(h) == x.authority && Complete(h))
    && (connect ==> x.authority != [] && x.path == x.query == x.fragment == h.userinfo == [] && h.port != [])
    && (h.port != [] ==> Decimal(h.port) <= 0xffff)
  }

  /** The address of the host with its zone. */
  function HostName(h: Authority): seq<byte> {
    h.address + Mark(h.percent, PERCENT) + h.zone
  }

  /** What a field holds. */
  function Component(x: Parts, h: Authority, f: Field): seq<byte> {
    match f
    case UfSchema => x.scheme
    case UfUserinfo => h.userinfo
    case UfHost => HostName(h)
    case UfPort => h.port
    case UfPath => x.path
    case UfQuery => x.query
    case UfFragment => x.fragment
    case UfMax => []
  }

  /** Where a field begins. */
  function StartOf(x: Parts, h: Authority, f: Field): nat {
    match f
    case UfUserinfo => Offset(Pieces(x), 2) + Offset(HostPieces(h), 0)
    case UfHost => Offset(Pieces(x), 2) + Offset(HostPieces(h), 3)
    case UfPort => Offset(Pieces(x), 2) + Offset(HostPieces(h), 8)
    case _ => Offset(Pieces(x), MainPiece(f))
  }

  /** The fields in the order in which they stand in a URL. */
  function Rank(f: Field): nat {
    match f
    case UfSchema => 0
    case UfUserinfo => 1
    case UfHost => 2
    case UfPort => 3
    case UfPath => 4
    case UfQuery => 5
    case UfFragment => 6
    case UfMax => 7
  }

  // ----- where the fields lie

  lemma {:induction false} OffsetsGrow(pieces: seq<seq<byte>>, j: nat, k: nat)
    requires j <= k <= |pieces|
    ensures Offset(pieces, j) <= Offset(pieces, k) <= |Concat(pieces)|
    decreases k - j
  {
    if j < k {
      PieceAt(pieces, j);
      OffsetsGrow(pieces, j + 1, k);
    } else {
      assert pieces[..|pieces|] == pieces;
      if k < |pieces| { PieceAt(pieces, k); }
    }
  }

  /** A field's text stands at its place. */
  lemma ComponentAt(x: Parts, h: Authority, f: Field)
    requires x.authority == HostText(h)
    ensures StartOf(x, h, f) + |Component(x, h, f)| <= |Text(x)|
    ensures Text(x)[StartOf(x, h, f)..StartOf(x, h, f) + |Component(x, h, f)|] == Component(x, h, f)
  {
    hide Concat, Offset;
    PieceAt(Pieces(x), 2);
    var base := Offset(Pieces(x), 2);
    match f
    case UfUserinfo => InsideAuthority(x, h, 0);
    case UfPort => InsideAuthority(x, h, 8);
    case UfHost => HostNameAt(x, h);
    case UfMax => OffsetsGrow(Pieces(x), MainPiece(f), 8);
    case _ => PieceAt(Pieces(x), MainPiece(f));
  }

  lemma InsideAuthority(x: Parts, h: Authority, k: nat)
    requires x.authority == HostText(h) && k < 9
    ensures var off := Offset(Pieces(x), 2) + Offset(HostPieces(h), k);
            && off + |HostPieces(h)[k]| <= Offset(Pieces(x), 3) <= |Text(x)|
            && Text(x)[off..off + |HostPieces(h)[k]|] == HostPieces(h)[k]
  {
    hide Concat;
    PieceAt(Pieces(x), 2);
    PieceAt(HostPieces(h), k);
    OffsetsGrow(Pieces(x), 3, 8);
    var base, off, n := Offset(Pieces(x), 2), Offset(HostPieces(h), k), |HostPieces(h)[k]|;
    SliceOfSlice(Text(x), base, base + |x.authority|, off, off + n);
  }

  lemma SliceOfSlice(t: seq<byte>, a: nat, b: nat, c: nat, d: nat)
    requires a <= b <= |t| && c <= d <= b - a
    ensures t[a..b][c..d] == t[a + c..a + d]
  {
    var u, v := t[a..b][c..d], t[a + c..a + d];
    assert |u| == |v|;
    forall i | 0 <= i < |u|
      ensures u[i] == v[i]
    {
      assert u[i] == t[a..b][c + i];
    }
  }

  lemma ThreeSlices(t: seq<byte>, a: nat, b: nat, c: nat, d: nat)
    requires a <= b <= c <= d <= |t|
    ensures t[a..d] == t[a..b] + t[b..c] + t[c..d]
  {
  }

  lemma HostNameAt(x: Parts, h: Authority)
    requires x.authority == HostText(h)
    ensures var off := Offset(Pieces(x), 2) + Offset(HostPieces(h), 3);
            && off + |HostName(h)| == Offset(Pieces(x), 2) + Offset(HostPieces(h), 6) <= |Text(x)|
            && Text(x)[off..off + |HostName(h)|] == HostName(h)
  {
    hide Concat, Offset, Text, HostText;
    InsideAuthority(x, h, 3);
    InsideAuthority(x, h, 4);
    InsideAuthority(x, h, 5);
    PieceAt(HostPieces(h), 3);
    PieceAt(HostPieces(h), 4);
    PieceAt(HostPieces(h), 5);
    var t, base := Text(x), Offset(Pieces(x), 2);
    var a, b, c, d := base + Offset(HostPieces(h), 3), base + Offset(HostPieces(h), 4),
                      base + Offset(HostPieces(h), 5), base + Offset(HostPieces(h), 6);
    ThreeSlices(t, a, b, c, d);
  }

  // ----- acceptance

  predicate LiesAt(span: Span, off: nat, len: nat) {
    span.off == off && span.len == len
  }

  /** The fields set are the components that are not empty, and each lies at its place. */
  predicate ReportsFields(fields: Fields, x: Parts, h: Authority) {
    && (forall f: Field :: f in fields <==> Component(x, h, f) != [])
    && (forall f | f in fields :: LiesAt(fields[f], StartOf(x, h, f), |Component(x, h, f)|))
  }

  /** The result the parts stand for. */
  predicate Reports(u: Url, x: Parts, h: Authority) {
    ReportsFields(u.fields, x, h) && u.port == if h.port == [] then 0 else Decimal(h.port)
  }

  lemma MainPieceFits(x: Parts, f: Field)
    requires |Text(x)| <= 0xffff
    ensures LiesAt(PieceSpan(Pieces(x), MainPiece(f), 0), Offset(Pieces(x), MainPiece(f)), |Pieces(x)[MainPiece(f)]|)
  {
    PieceAt(Pieces(x), MainPiece(f));
  }

  /** The first reading sees the authority whole. */
  lemma AuthorityIsSeen(text: seq<byte>, x: Parts)
    requires |text| <= 0xffff && Text(x) == text && x.authority != []
    ensures UfHost in MainFields(x) && AuthorityOf(text, x) == x.authority
    ensures LiesAt(MainFields(x)[UfHost], Offset(Pieces(x), 2), |x.authority|)
  {
    MainPieceFits(x, UfHost);
    hide Offset, Concat;
    PieceAt(Pieces(x), 2);
  }

  /** The second reading of a whole authority finds its parts. */
  lemma HostReading(text: seq<byte>, x: Parts, h: Authority)
    requires |text| <= 0xffff && Text(x) == text && x.authority != []
    requires ValidAuthorityParts(h, FoundAt(x)) && HostText(h) == x.authority && Complete(h)
    ensures UfHost in MainFields(x) && HostAccepted(text, x) && SecondReading(text, x) == h
    ensures PortDigits(text, x) == h.port
  {
    AuthorityIsSeen(text, x);
    GrammaticalHostIsScanned(FoundAt(x), h);
    CompleteIff(h, FoundAt(x));
    hide ValidAuthorityParts, Complete, HostText, Text, Offset, HostEnds, MainFields, AuthorityOf, PortDigits;
    PortIsSeen(text, x, h);
  }

  lemma PortIsSeen(text: seq<byte>, x: Parts, h: Authority)
    requires |text| <= 0xffff && Text(x) == text && x.authority == HostText(h)
    requires UfHost in MainFields(x) && LiesAt(MainFields(x)[UfHost], Offset(Pieces(x), 2), |x.authority|)
    requires HostAccepted(text, x) && SecondReading(text, x) == h
    ensures PortDigits(text, x) == h.port
  {
    hide Text, HostText, Offset, Concat, MainFields, HostAccepted, SecondReading, PortDigits;
    InsideAuthority(x, h, 8);
    PortSpanFits(text, x, h);
    PortDigitsAre(text, x);
  }

  lemma PortDigitsAre(text: seq<byte>, x: Parts)
    requires Text(x) == text && UfHost in MainFields(x) && HostAccepted(text, x)
    requires var span := PieceSpan(HostPieces(SecondReading(text, x)), 8, MainFields(x)[UfHost].off);
             InBounds(span, text)
    ensures var span := PieceSpan(HostPieces(SecondReading(text, x)), 8, MainFields(x)[UfHost].off);
            PortDigits(text, x) == if SecondReading(text, x).port == [] then [] else text[span.off..span.off + span.len]
  {
    hide Text, MainFields, HostAccepted, SecondReading, HostPieces, PieceSpan;
  }

  lemma PortSpanFits(text: seq<byte>, x: Parts, h: Authority)
    requires |text| <= 0xffff && Text(x) == text && HostText(h) == x.authority
    ensures Offset(Pieces(x), 2) <= 0xffff
    ensures LiesAt(PieceSpan(HostPieces(h), 8, Offset(Pieces(x), 2)), StartOf(x, h, UfPort), |h.port|)
  {
    hide Text, Offset, HostText;
    InsideAuthority(x, h, 8);
  }

  lemma HostSpansFit(text: seq<byte>, x: Parts, h: Authority)
    requires |text| <= 0xffff && Text(x) == text && HostText(h) == x.authority
    ensures Offset(Pieces(x), 2) <= 0xffff
    ensures LiesAt(PieceSpan(HostPieces(h), 0, Offset(Pieces(x), 2)), StartOf(x, h, UfUserinfo), |h.userinfo|)
    ensures AddressLength(h) == |HostName(h)| <= 0xffff && StartOf(x, h, UfHost) <= 0xffff
  {
    hide Text, Offset, HostText;
    InsideAuthority(x, h, 0);
    HostNameAt(x, h);
  }

  lemma MainFieldsReport(text: seq<byte>, x: Parts)
    requires |text| <= 0xffff && Text(x) == text && x.authority == []
    ensures ReportsFields(MainFields(x), x, NO_AUTHORITY)
  {
    hide Text, Offset;
    forall f: Field
      ensures f in MainFields(x) <==> Component(x, NO_AUTHORITY, f) != []
      ensures f in MainFields(x) ==>
        LiesAt(MainFields(x)[f], StartOf(x, NO_AUTHORITY, f), |Component(x, NO_AUTHORITY, f)|)
    {
      MainPieceFits(x, f);
    }
  }

  lemma HostFieldsReport(text: seq<byte>, x: Parts, h: Authority, base: u16)
    requires |text| <= 0xffff && Text(x) == text && HostText(h) == x.authority != [] && Complete(h)
    requires base == Offset(Pieces(x), 2)
    ensures UfHost in MainFields(x)
    ensures ReportsFields(HostFields(MainFields(x), base, h), x, h)
  {
    AuthorityIsSeen(text, x);
    PortSpanFits(text, x, h);
    HostSpansFit(text, x, h);
    hide *;
    forall f: Field
      ensures f in HostFields(MainFields(x), base, h) <==> Component(x, h, f) != []
      ensures f in HostFields(MainFields(x), base, h) ==>
                LiesAt(HostFields(MainFields(x), base, h)[f], StartOf(x, h, f), |Component(x, h, f)|)
    {
      MainPieceFits(x, f);
      HostFieldReports(x, h, base, f);
    }
  }

  lemma HostFieldReports(x: Parts, h: Authority, base: u16, f: Field)
    requires UfHost in MainFields(x) && base == Offset(Pieces(x), 2) && h.address != []
    requires LiesAt(PieceSpan(Pieces(x), MainPiece(f), 0), Offset(Pieces(x), MainPiece(f)), |Pieces(x)[MainPiece(f)]|)
    requires LiesAt(PieceSpan(HostPieces(h), 8, base), StartOf(x, h, UfPort), |h.port|)
    requires LiesAt(PieceSpan(HostPieces(h), 0, base), StartOf(x, h, UfUserinfo), |h.userinfo|)
    requires AddressLength(h) == |HostName(h)| <= 0xffff && StartOf(x, h, UfHost) <= 0xffff
    ensures f in HostFields(MainFields(x), base, h) <==> Component(x, h, f) != []
    ensures f in HostFields(MainFields(x), base, h) ==>
              LiesAt(HostFields(MainFields(x), base, h)[f], StartOf(x, h, f), |Component(x, h, f)|)
  {
    hide Offset, Text, HostText;
  }

  /** Every grammatical URL is accepted, and reported as it is. */
  lemma GrammaticalIsAccepted(connect: bool, text: seq<byte>, x: Parts, h: Authority)
    requires |text| <= 0xffff && IsUrl(connect, text, x, h)
    ensures Parse(connect, text).Accepted? && Reports(Parse(connect, text).url, x, h)
  {
    GrammaticalIsScanned(connect, x);
    if x.authority != [] {
      WithAuthority(connect, text, x, h);
    } else {
      WithoutAuthority(connect, text, x);
    }
  }

  lemma WithoutAuthority(connect: bool, text: seq<byte>, x: Parts)
    requires |text| <= 0xffff && IsUrl(connect, text, x, NO_AUTHORITY) && x.authority == []
    requires Scan(connect, text) != Dead && Read(connect, text) == x
    ensures Parse(connect, text).Accepted? && Reports(Parse(connect, text).url, x, NO_AUTHORITY)
  {
    MainFieldsReport(text, x);
    hide Text, Offset, MainFields, Valid, Scan, Read;
    assert forall f: Field :: f in MainFields(x) <==> Component(x, NO_AUTHORITY, f) != [];
  }

  lemma WithAuthority(connect: bool, text: seq<byte>, x: Parts, h: Authority)
    requires |text| <= 0xffff && IsUrl(connect, text, x, h) && x.authority != []
    requires Scan(connect, text) != Dead && Read(connect, text) == x
    ensures Parse(connect, text).Accepted? && Reports(Parse(connect, text).url, x, h)
  {
    AuthorityIsSeen(text, x);
    HostReading(text, x, h);
    HostFieldsReport(text, x, h, MainFields(x)[UfHost].off);
    hide Text, Offset, MainFields, HostFields, Valid, ValidAuthorityParts, Scan, Read, HostText, PortValue, Decimal;
    var fields := HostFields(MainFields(x), MainFields(x)[UfHost].off, h);
    OnlyHostAndPort(fields, x, h);
    PortIsRead(h, FoundAt(x));
  }

  lemma OnlyHostAndPort(fields: Fields, x: Parts, h: Authority)
    requires ReportsFields(fields, x, h)
    ensures fields.Keys == {UfHost, UfPort} <==>
      x.scheme == x.path == x.query == x.fragment == h.userinfo == [] && h.port != [] && HostName(h) != []
  {
    hide HostName, StartOf;
    assert forall f: Field :: f in fields <==> Component(x, h, f) != [];
    assert UfSchema in fields.Keys <==> x.scheme != [];
    assert UfPath in fields.Keys <==> x.path != [];
    assert UfQuery in fields.Keys <==> x.query != [];
    assert UfFragment in fields.Keys <==> x.fragment != [];
    assert UfUserinfo in fields.Keys <==> h.userinfo != [];
    assert UfPort in fields.Keys <==> h.port != [];
    assert UfHost in fields.Keys <==> HostName(h) != [];
  }

  lemma PortIsRead(h: Authority, foundAt: bool)
    requires ValidAuthorityParts(h, foundAt)
    ensures 0 <= Decimal(h.port)
    ensures PortValue(h.port) == if Decimal(h.port) <= 0xffff then PortNumber(Decimal(h.port)) else TooLarge
  {
    forall i | 0 <= i < |h.port|
      ensures IsDecimal(h.port[i])
    {
      assert IsNum(h.port[i]);
    }
    PortValueIsDecimal(h.port);
  }

  /** Whatever is accepted is grammatical. */
  lemma AcceptedIsGrammatical(connect: bool, text: seq<byte>) returns (x: Parts, h: Authority)
    requires |text| <= 0xffff && Parse(connect, text).Accepted?
    ensures IsUrl(connect, text, x, h)
  {
    hide MainFields, HostFields, PortDigits, Text, HostText, Valid, ValidAuthorityParts, HostEnds, Complete;
    x := Read(connect, text);
    ScanIsGrammatical(connect, text);
    FieldsSet(x);
    if x.authority == [] {
      h := NO_AUTHORITY;
    } else {
      AuthorityIsSeen(text, x);
      h := SecondReading(text, x);
      EndsAlive(ScanHost(FoundAt(x), x.authority));
      ScanHostIsGrammatical(FoundAt(x), x.authority);
      CompleteIff(h, FoundAt(x));
      HostReading(text, x, h);
      HostFieldsReport(text, x, h, MainFields(x)[UfHost].off);
      OnlyHostAndPort(HostFields(MainFields(x), MainFields(x)[UfHost].off, h), x, h);
      PortIsRead(h, FoundAt(x));
    }
  }

  lemma EndsAlive(s: HostState)
    ensures HostEnds(s) ==> s != HostDead
  {
  }

  lemma FieldsSet(x: Parts)
    ensures UfHost in MainFields(x) <==> x.authority != []
    ensures UfSchema in MainFields(x) <==> x.scheme != []
  {
  }

  /** The accepted inputs are the grammatical URLs. */
  lemma AcceptedIff(connect: bool, text: seq<byte>)
    requires |text| <= 0xffff
    ensures Parse(connect, text).Accepted? <==> exists x, h :: IsUrl(connect, text, x, h)
  {
    hide IsUrl, Parse;
    if Parse(connect, text).Accepted? {
      var x, h := AcceptedIsGrammatical(connect, text);
    } else {
      forall x, h | IsUrl(connect, text, x, h)
        ensures false
      {
        GrammaticalIsAccepted(connect, text, x, h);
      }
    }
  }

  // ----- the partition

  predicate IsDelimiter(ch: byte) {
    ch in {COLON, SLASH, QUESTION, HASH, AT, OPEN, CLOSE}
  }

  predicate Covers(span: Span, i: nat) {
    span.off <= i < span.off + span.len
  }

  /** Every position of a concatenation is in one of the pieces. */
  lemma {:induction false} WhichPiece(pieces: seq<seq<byte>>, i: nat) returns (k: nat)
    requires i < |Concat(pieces)|
    ensures k < |pieces| && 0 <= i - Offset(pieces, k) < |pieces[k]|
    ensures Concat(pieces)[i] == pieces[k][i - Offset(pieces, k)]
    decreases |pieces|
  {
    var n := |pieces| - 1;
    PieceAt(pieces, n);
    assert pieces[..n + 1] == pieces;
    if i < |Concat(pieces[..n])| {
      k := WhichPiece(pieces[..n], i);
      assert pieces[..n][..k] == pieces[..k];
    } else {
      k := n;
    }
  }

  /** The piece of the URL a field lies in. */
  function MainOf(f: Field): (k: nat)
    ensures k < 8
  {
    if f == UfUserinfo || f == UfPort then 2 else MainPiece(f)
  }

  lemma WithinMain(x: Parts, h: Authority, f: Field)
    requires x.authority == HostText(h) && f != UfMax
    ensures Offset(Pieces(x), MainOf(f)) <= StartOf(x, h, f)
    ensures StartOf(x, h, f) + |Component(x, h, f)| <= Offset(Pieces(x), MainOf(f) + 1)
  {
    hide Text, HostText, Offset, Concat;
    PieceAt(Pieces(x), MainOf(f));
    if f == UfUserinfo { InsideAuthority(x, h, 0); }
    if f == UfPort { InsideAuthority(x, h, 8); }
    if f == UfHost {
      HostNameAt(x, h);
      OffsetsGrow(HostPieces(h), 6, 9);
      HostTextOf(h);
    }
  }

  lemma HostTextOf(h: Authority)
    ensures HostText(h) == Concat(HostPieces(h))
  {
  }

  /** The fields lie one behind the other, in the order of the URL. */
  lemma FieldsInOrder(x: Parts, h: Authority, f: Field, g: Field)
    requires x.authority == HostText(h) && Rank(f) < Rank(g) && g != UfMax
    ensures StartOf(x, h, f) + |Component(x, h, f)| <= StartOf(x, h, g)
  {
    hide Text, HostText, Offset, Concat;
    WithinMain(x, h, f);
    WithinMain(x, h, g);
    if MainOf(f) < MainOf(g) {
      OffsetsGrow(Pieces(x), MainOf(f) + 1, MainOf(g));
    } else {
      HostNameAt(x, h);
      PieceAt(HostPieces(h), 0);
      OffsetsGrow(HostPieces(h), 1, 3);
      OffsetsGrow(HostPieces(h), 6, 8);
    }
  }

  predicate Inside(x: Parts, h: Authority, f: Field, i: nat) {
    StartOf(x, h, f) <= i < StartOf(x, h, f) + |Component(x, h, f)|
  }

  /** A byte of the authority is in one of its fields or is a delimiter. */
  lemma AuthorityByte(x: Parts, h: Authority, i: nat, at: nat)
    requires x.authority == HostText(h) && i < |x.authority| && at == Offset(Pieces(x), 2) + i
    ensures (exists f :: Inside(x, h, f, at)) || IsDelimiter(x.authority[i])
  {
    hide HostText, Offset, Concat;
    HostTextOf(h);
    var k := WhichPiece(HostPieces(h), i);
    if k == 0 {
      assert Inside(x, h, UfUserinfo, at);
    } else if k == 8 {
      assert Inside(x, h, UfPort, at);
    } else if 3 <= k <= 5 {
      HostNameAt(x, h);
      OffsetsGrow(HostPieces(h), 3, k);
      OffsetsGrow(HostPieces(h), k + 1, 6);
      PieceAt(HostPieces(h), k);
      assert Inside(x, h, UfHost, at);
    }
  }

  /** A byte of the URL is in one of the fields or is a delimiter. */
  lemma UrlByte(x: Parts, h: Authority, i: nat)
    requires x.authority == HostText(h) && i < |Text(x)|
    ensures (exists f :: Inside(x, h, f, i)) || IsDelimiter(Text(x)[i])
  {
    hide HostText, Offset, Concat;
    var k := WhichPiece(Pieces(x), i);
    if k == 2 {
      AuthorityByte(x, h, i - Offset(Pieces(x), 2), i);
    } else if k in {0, 3, 5, 7} {
      var f := if k == 0 then UfSchema else if k == 3 then UfPath else if k == 5 then UfQuery else UfFragment;
      assert Inside(x, h, f, i);
    }
  }

  /**
   The fields of an accepted URL are non-empty runs of the input, one behind the other;
   every byte outside them is a delimiter; and the port is the number its digits spell.
   */
  lemma FieldsPartition(connect: bool, text: seq<byte>)
    requires |text| <= 0xffff && Parse(connect, text).Accepted?
    ensures var u := Parse(connect, text).url;
      && (forall f | f in u.fields :: u.fields[f].len > 0 && InBounds(u.fields[f], text))
      && (forall f, g | f in u.fields && g in u.fields && Rank(f) < Rank(g) ::
            u.fields[f].off + u.fields[f].len <= u.fields[g].off)
      && (forall i | 0 <= i < |text| :: IsDelimiter(text[i]) || exists f :: f in u.fields && Covers(u.fields[f], i))
      && (if UfPort in u.fields then u.port == Decimal(Slice(text, u.fields[UfPort])) else u.port == 0)
  {
    var x, h := AcceptedIsGrammatical(connect, text);
    GrammaticalIsAccepted(connect, text, x, h);
    var u := Parse(connect, text).url;
    NoHostText(x, h);
    PartitionOf(text, x, h, u);
  }

  lemma NoHostText(x: Parts, h: Authority)
    requires if x.authority == [] then h == NO_AUTHORITY else HostText(h) == x.authority
    ensures HostText(h) == x.authority
  {
    NoAuthority(false);
  }

  lemma PartitionOf(text: seq<byte>, x: Parts, h: Authority, u: Url)
    requires text == Text(x) && x.authority == HostText(h) && Reports(u, x, h)
    ensures forall f | f in u.fields :: u.fields[f].len > 0 && InBounds(u.fields[f], text)
    ensures forall f, g | f in u.fields && g in u.fields && Rank(f) < Rank(g) ::
              u.fields[f].off + u.fields[f].len <= u.fields[g].off
    ensures forall i | 0 <= i < |text| :: IsDelimiter(text[i]) || exists f :: f in u.fields && Covers(u.fields[f], i)
    ensures if UfPort in u.fields then u.port == Decimal(Slice(text, u.fields[UfPort])) else u.port == 0
  {
    hide HostText, Text, StartOf, Decimal;
    forall f | f in u.fields
      ensures u.fields[f].len > 0 && InBounds(u.fields[f], text)
      ensures Slice(text, u.fields[f]) == Component(x, h, f)
    {
      ComponentAt(x, h, f);
    }
    forall f, g | f in u.fields && g in u.fields && Rank(f) < Rank(g)
      ensures u.fields[f].off + u.fields[f].len <= u.fields[g].off
    {
      FieldsInOrder(x, h, f, g);
    }
    forall i | 0 <= i < |text|
      ensures IsDelimiter(text[i]) || exists f :: f in u.fields && Covers(u.fields[f], i)
    {
      UrlByte(x, h, i);
      if f :| Inside(x, h, f, i) {
        assert Component(x, h, f) != [];
        assert f in u.fields && Covers(u.fields[f], i);
      }
    }
  }
}
