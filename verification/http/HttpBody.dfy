/**
 The message body states of the incremental parser: identity bodies and the chunked
 transfer coding, one byte at a time.
 */
module HttpBody {
  import opened Octets

  const CR: byte := 13
  const LF: byte := 10
  const SPACE: byte := 32
  const SEMICOLON: byte := 59

  /** `HTTP_ULLONG_MAX`: the content length that means "no Content-Length header". */
  const ABSENT := 0xFFFF_FFFF_FFFF_FFFF

  const M64 := 0x1_0000_0000_0000_0000

  /** `HTTP_MAX_HEADER_SIZE`. */
  const MAX_HEADER_SIZE := 80 * 1024

  type u64 = x: int | 0 <= x < 0x1_0000_0000_0000_0000

  datatype Errno = Good | HeaderOverflow | InvalidChunkSize | InvalidContentLength | Strict

  /**
   The states of the body. `Trailer` stands for `s_header_field_start` after the last
   chunk and `Complete` for the state `HTTP_NEW_MESSAGE` chooses after the message-complete
   callback: in both, the bytes that follow belong to other parts of the parser.
   */
  datatype Phase = ChunkSizeStart | ChunkSize | ChunkParameters | ChunkSizeAlmostDone
                 | ChunkData | ChunkDataAlmostDone | ChunkDataDone
                 | BodyIdentity | BodyIdentityEof
                 | Trailer | Complete

  /**
   The parser while it reads a body. `delivered` is all that the body callback has been
   given; `held` are the body bytes seen since the mark was set and not yet passed on;
   `consumed` counts the bytes taken.
   */
  datatype Parser = Parser(phase: Phase, errno: Errno, contentLength: u64, nread: nat,
                           delivered: seq<byte>, held: seq<byte>, consumed: nat)

  predicate InHeader(phase: Phase) {
    phase in {ChunkSizeStart, ChunkSize, ChunkParameters, ChunkSizeAlmostDone}
  }

  /** The body machine takes no more bytes. */
  predicate Stopped(s: Parser) {
    s.errno != Good || s.phase in {Trailer, Complete}
  }

  // ----- numerals

  /** The table `unhex`: only its first 128 entries are listed, the others are zero. */
  function Unhex(ch: byte): (v: int)
    ensures -1 <= v < 16
  {
    if 48 <= ch <= 57 then ch - 48
    else if 65 <= ch <= 70 then ch - 55
    else if 97 <= ch <= 102 then ch - 87
    else if ch < 128 then -1
    else 0
  }

  /** `t *= base; t += digit` in 64 bits. */
  function Accumulate(value: u64, base: nat, digit: nat): u64 {
    (value * base % M64 + digit) % M64
  }

  /** The guard of the accumulators: what `value` may be before another digit is taken. */
  predicate RoomFor(value: u64, base: int)
    requires base == 10 || base == 16
  {
    value <= (ABSENT - base) / base
  }

  /** The largest numeral the guard lets through; the absent mark is larger. */
  function Largest(base: int): (r: nat)
    requires base == 10 || base == 16
    ensures r < ABSENT
  {
    (ABSENT - base) / base * base + base - 1
  }

  /** Where the guard holds nothing wraps, and it holds exactly when the number is small enough. */
  lemma AccumulateIsExact(value: u64, base: int, digit: nat)
    requires base == 10 || base == 16
    requires digit < base
    ensures RoomFor(value, base) <==> value * base + digit <= Largest(base)
    ensures RoomFor(value, base) ==> Accumulate(value, base, digit) == value * base + digit
  {
  }

  // ----- one byte

  function Fail(s: Parser, e: Errno): Parser {
    s.(errno := e)
  }

  function Go(s: Parser, phase: Phase): Parser {
    s.(phase := phase, consumed := s.consumed + 1)
  }

  function ReadChunkSizeStart(s: Parser, ch: byte): Parser {
    if Unhex(ch) == -1 then Fail(s, InvalidChunkSize)
    else Go(s, ChunkSize).(contentLength := Unhex(ch))
  }

  function ReadChunkSize(s: Parser, ch: byte): Parser {
    if ch == CR then Go(s, ChunkSizeAlmostDone)
    else if Unhex(ch) == -1 then
      if ch == SEMICOLON || ch == SPACE then Go(s, ChunkParameters) else Fail(s, InvalidChunkSize)
    else if !RoomFor(s.contentLength, 16) then Fail(s, InvalidContentLength)
    else Go(s, ChunkSize).(contentLength := Accumulate(s.contentLength, 16, Unhex(ch)))
  }

  function ReadHeaderByte(s: Parser, ch: byte): Parser
    requires InHeader(s.phase)
  {
    match s.phase
    case ChunkSizeStart => ReadChunkSizeStart(s, ch)
    case ChunkSize => ReadChunkSize(s, ch)
    case ChunkParameters => Go(s, if ch == CR then ChunkSizeAlmostDone else ChunkParameters)
    case ChunkSizeAlmostDone =>
      if ch != LF then Fail(s, Strict)
      else Go(s, if s.contentLength == 0 then Trailer else ChunkData).(nread := 0)
  }

  /** A byte that belongs to the body; `last` is where the machine goes after the last one. */
  function TakeByte(s: Parser, ch: byte, last: Phase): Parser
    requires s.contentLength > 0
  {
    Go(s, if s.contentLength == 1 then last else s.phase).(contentLength := s.contentLength - 1, held := s.held + [ch])
  }

  /** The body callback is given what is held. */
  function HandOver(s: Parser): Parser {
    s.(delivered := s.delivered + s.held, held := [])
  }

  function ReadBodyByte(s: Parser, ch: byte): Parser
    requires Sound(s) && !Stopped(s) && !InHeader(s.phase)
  {
    match s.phase
    case ChunkData => TakeByte(s, ch, ChunkDataAlmostDone)
    case ChunkDataAlmostDone => if ch != CR then Fail(s, Strict) else HandOver(Go(s, ChunkDataDone))
    case ChunkDataDone => if ch != LF then Fail(s, Strict) else Go(s, ChunkSizeStart).(nread := 0)
    case BodyIdentity =>
      var t := TakeByte(s, ch, Complete);
      if t.phase == Complete then HandOver(t) else t
    case BodyIdentityEof => Go(s, BodyIdentityEof).(held := s.held + [ch])
  }

  /** One turn of the loop for one byte. */
  function Step(s: Parser, ch: byte): Parser
    requires Sound(s)
  {
    if Stopped(s) then s
    else if InHeader(s.phase) then
      var t := s.(nread := s.nread + 1);
      if t.nread > MAX_HEADER_SIZE then Fail(t, HeaderOverflow) else ReadHeaderByte(t, ch)
    else ReadBodyByte(s, ch)
  }

  /** What the assertions inside the states demand, and what is held when. */
  predicate Sound(s: Parser) {
    && (s.phase == ChunkSizeStart && s.errno == Good ==> s.nread == 0)
    && (s.phase in {ChunkData, BodyIdentity} ==> 0 < s.contentLength < ABSENT)
    && (s.phase == ChunkDataAlmostDone ==> s.contentLength == 0)
    && (InHeader(s.phase) ==> s.contentLength < ABSENT || s.phase == ChunkSizeStart)
    && (s.held != [] ==> s.phase in {ChunkData, ChunkDataAlmostDone, BodyIdentity, BodyIdentityEof})
  }

  /** The assertions of the states hold at every byte. */
  lemma StepKeepsSound(s: Parser, ch: byte)
    requires Sound(s)
    ensures Sound(Step(s, ch))
  {
    if s.phase == ChunkSize && RoomFor(s.contentLength, 16) && Unhex(ch) >= 0 {
      AccumulateIsExact(s.contentLength, 16, Unhex(ch));
    }
  }

  /** The whole input, one byte at a time. */
  function Run(s: Parser, data: seq<byte>): (r: Parser)
    requires Sound(s)
    ensures Sound(r)
  {
    if data == [] then s
    else
      var t := Run(s, data[..|data| - 1]);
      StepKeepsSound(t, data[|data| - 1]);
      Step(t, data[|data| - 1])
  }
}
