/**
 The fields `http_parser_parse_url` reports, as a function of the parts of the URL: which
 are set, where they lie, and when the URL is refused.
 */
module UrlFields {
  import opened Octets
  import opened UrlGrammar
  import opened UrlHost
  import opened HttpLength

  type u16 = x: int | 0 <= x < 0x1_0000

  datatype Field = UfSchema | UfHost | UfPort | UfPath | UfQuery | UfFragment | UfUserinfo | UfMax

  /** A run of the buffer. Both numbers are stored in 16 bits. */
  datatype Span = Span(off: u16, len: u16)

  /** The fields whose bit is set, and where they lie. */
  type Fields = map<Field, Span>

  datatype Url = Url(fields: Fields, port: u16)

  datatype Result = Accepted(url: Url) | Rejected

  /** The cast `static_cast<uint16_t>`. */
  function Short(n: nat): u16 {
    n % 0x1_0000
  }

  function PieceSpan(pieces: seq<seq<byte>>, k: nat, base: nat): Span
    requires k < |pieces|
  {
    Span(Short(base + Offset(pieces, k)), Short(|pieces[k]|))
  }

  predicate InBounds(span: Span, text: seq<byte>) {
    span.off + span.len <= |text|
  }

  function Slice(text: seq<byte>, span: Span): seq<byte>
    requires InBounds(span, text)
  {
    text[span.off..span.off + span.len]
  }

  // ----- the first reading

  const MAIN_FIELDS := {UfSchema, UfHost, UfPath, UfQuery, UfFragment}

  /** The piece of the URL a field of the first reading is. */
  function MainPiece(f: Field): (k: nat)
    ensures k < 8
  {
    match f
    case UfHost => 2
    case UfPath => 3
    case UfQuery => 5
    case UfFragment => 7
    case _ => 0
  }

  /** After the first reading the host field is the whole authority. */
  function MainFields(x: Parts): Fields {
    map f | f in MAIN_FIELDS && Pieces(x)[MainPiece(f)] != [] :: PieceSpan(Pieces(x), MainPiece(f), 0)
  }

  lemma MainInBounds(x: Parts, f: Field)
    requires f in MainFields(x)
    ensures InBounds(MainFields(x)[f], Text(x))
  {
    hide *;
    MainFieldIs(x, f);
    TextOf(x);
    SpanInBounds(Pieces(x), MainPiece(f));
  }

  lemma MainFieldIs(x: Parts, f: Field)
    requires f in MainFields(x)
    ensures MainFields(x)[f] == PieceSpan(Pieces(x), MainPiece(f), 0)
  {
    hide Pieces, PieceSpan, MainPiece;
  }

  lemma SpanInBounds(pieces: seq<seq<byte>>, k: nat)
    requires k < |pieces|
    ensures InBounds(PieceSpan(pieces, k, 0), Concat(pieces))
  {
    PieceAt(pieces, k);
    hide Concat;
  }

  lemma TextOf(x: Parts)
    ensures Text(x) == Concat(Pieces(x))
  {
  }

  // ----- the second reading

  function AddressLength(h: Authority): nat {
    |h.address| + (if h.percent then 1 else 0) + |h.zone|
  }

  datatype Option = None | Some(span: Span)

  /** The run of a piece, when it is not empty. */
  function PieceRun(pieces: seq<seq<byte>>, k: nat, base: nat): Option
    requires k < |pieces|
  {
    if pieces[k] == [] then None else Some(PieceSpan(pieces, k, base))
  }

  /** The host's run; until the host has begun its offset is the authority's. */
  function HostSpan(off: u16, base: u16, h: Authority): Span {
    Span(if h.address == [] then off else Short(base + Offset(HostPieces(h), 3)), Short(AddressLength(h)))
  }

  /** The fields with the host's run set, and those of userinfo and port where there are any. */
  function Put(fields: Fields, host: Span, userinfo: Option, port: Option): Fields {
    var f0 := fields[UfHost := host];
    var f1 := if userinfo == None then f0 else f0[UfUserinfo := userinfo.span];
    if port == None then f1 else f1[UfPort := port.span]
  }

  /** The fields once the authority, which lies at `base`, has been read as `h`. */
  function HostFields(fields: Fields, base: u16, h: Authority): Fields
    requires UfHost in fields
  {
    Put(fields, HostSpan(fields[UfHost].off, base, h), PieceRun(HostPieces(h), 0, base), PieceRun(HostPieces(h), 8, base))
  }

  lemma PortInBounds(base: u16, h: Authority, text: seq<byte>)
    requires base + |HostText(h)| <= |text|
    ensures InBounds(PieceSpan(HostPieces(h), 8, base), text)
  {
    PieceAt(HostPieces(h), 8);
  }

  // ----- the result

  /** The authority as the second reading sees it. */
  function AuthorityOf(text: seq<byte>, x: Parts): seq<byte>
    requires Text(x) == text && UfHost in MainFields(x)
  {
    MainInBounds(x, UfHost);
    Slice(text, MainFields(x)[UfHost])
  }

  function FoundAt(x: Parts): bool {
    AT in x.authority
  }

  function SecondReading(text: seq<byte>, x: Parts): Authority
    requires Text(x) == text && UfHost in MainFields(x)
  {
    ReadHost(FoundAt(x), AuthorityOf(text, x))
  }

  predicate HostAccepted(text: seq<byte>, x: Parts)
    requires Text(x) == text && UfHost in MainFields(x)
  {
    HostEnds(ScanHost(FoundAt(x), AuthorityOf(text, x)))
  }

  /** The port's digits, when the second reading has found some. */
  function PortDigits(text: seq<byte>, x: Parts): seq<byte>
    requires Text(x) == text && UfHost in MainFields(x) && HostAccepted(text, x)
  {
    var h := SecondReading(text, x);
    if h.port == [] then []
    else
      var base := MainFields(x)[UfHost].off;
      ScanHostIsGrammatical(FoundAt(x), AuthorityOf(text, x));
      MainInBounds(x, UfHost);
      PortInBounds(base, h, text);
      Slice(text, PieceSpan(HostPieces(h), 8, base))
  }

  datatype PortNumber = PortNumber(value: u16) | TooLarge

  /** A `char` taken as a number; the type is signed. */
  function SignedChar(ch: byte): (r: int)
    ensures -128 <= r <= 127 && (r - ch) % 256 == 0
  {
    if ch < 128 then ch else ch - 256
  }

  /**
   The loop over the port's run. The sum is kept in an unsigned variable: below zero it
   wraps to a number that is refused like any other past 16 bits.
   */
  function PortValue(digits: seq<byte>): PortNumber {
    if digits == [] then PortNumber(0)
    else
      match PortValue(digits[..|digits| - 1])
      case TooLarge => TooLarge
      case PortNumber(v) =>
        var w := v * 10 + (SignedChar(digits[|digits| - 1]) - 48);
        if 0 <= w <= 0xffff then PortNumber(w) else TooLarge
  }

  /** Over digits the loop accepts exactly the numbers that fit, and computes them. */
  lemma {:induction false} PortValueIsDecimal(digits: seq<byte>)
    requires forall i | 0 <= i < |digits| :: IsDecimal(digits[i])
    ensures 0 <= Decimal(digits)
    ensures PortValue(digits) == if Decimal(digits) <= 0xffff then PortNumber(Decimal(digits)) else TooLarge
    decreases |digits|
  {
    if digits != [] {
      PortValueIsDecimal(digits[..|digits| - 1]);
    }
  }

  function Finish(connect: bool, fields: Fields, digits: seq<byte>): Result {
    if connect && fields.Keys != {UfHost, UfPort} then Rejected
    else if UfPort !in fields then Accepted(Url(fields, 0))
    else
      match PortValue(digits)
      case PortNumber(v) => Accepted(Url(fields, v))
      case TooLarge => Rejected
  }

  /** `http_parser_parse_url`. */
  function Parse(connect: bool, text: seq<byte>): Result {
    if text == [] || Scan(connect, text) == Dead then Rejected
    else
      ScanIsGrammatical(connect, text);
      var x := Read(connect, text);
      var fields := MainFields(x);
      if UfHost !in fields then
        if UfSchema in fields then Rejected else Finish(connect, fields, [])
      else if !HostAccepted(text, x) then Rejected
      else Finish(connect, HostFields(fields, fields[UfHost].off, SecondReading(text, x)), PortDigits(text, x))
  }
}
