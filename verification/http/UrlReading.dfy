/**
 How the fields of a URL change while it is read, byte by byte.
 */
module UrlReading {
  import opened Octets
  import opened UrlGrammar
  import opened UrlHost
  import opened UrlFields
  import opened HttpLength

  /** The field a state of the first reading belongs to; `UfMax` for the delimiters. */
  function FieldOf(s: State): Field {
    match s
    case Schema => UfSchema
    case ServerWithAt => UfHost
    case Server => UfHost
    case Path => UfPath
    case Query => UfQuery
    case Fragment => UfFragment
    case _ => UfMax
  }

  /** The field entered last. */
  function Latest(x: Parts): Field {
    if x.fragment != [] then UfFragment
    else if x.query != [] then UfQuery
    else if x.path != [] then UfPath
    else if x.authority != [] then UfHost
    else if x.scheme != [] then UfSchema
    else UfMax
  }

  lemma {:induction false} EmptyTail(pieces: seq<seq<byte>>, k: nat)
    requires k <= |pieces| && forall i | k <= i < |pieces| :: pieces[i] == []
    ensures Offset(pieces, k) == |Concat(pieces)|
    decreases |pieces|
  {
    if k == |pieces| {
      assert pieces[..k] == pieces;
    } else {
      EmptyTail(pieces[..|pieces| - 1], k);
      assert pieces[..|pieces| - 1][..k] == pieces[..k];
    }
  }

  /** Where the pieces before one are the same, its offset is. */
  lemma SameOffset(p: seq<seq<byte>>, q: seq<seq<byte>>, k: nat)
    requires k <= |p| && k <= |q| && forall i | 0 <= i < k :: p[i] == q[i]
    ensures Offset(p, k) == Offset(q, k)
  {
    assert p[..k] == q[..k];
  }

  /** What the first reading does to the fields for one byte. */
  function Enter(fields: Fields, latest: Field, uf: Field, p: nat): Fields
    requires uf == latest != UfMax ==> uf in fields
  {
    if uf == UfMax then fields
    else if uf == latest then fields[uf := Span(fields[uf].off, Short(fields[uf].len + 1))]
    else fields[uf := Span(Short(p), 1)]
  }

  lemma LatestIsSet(x: Parts)
    ensures Latest(x) != UfMax ==> Latest(x) in MainFields(x)
  {
  }

  /** The fields follow the parts. */
  lemma FieldStep(x: Parts, connect: bool, ch: byte)
    requires Valid(x, connect) && ParseUrlChar(StateOf(x, connect), ch) != Dead
    ensures Latest(x) != UfMax ==> Latest(x) in MainFields(x)
    ensures var s := ParseUrlChar(StateOf(x, connect), ch);
            var y := Advance(x, s, ch);
            && MainFields(y) == Enter(MainFields(x), Latest(x), FieldOf(s), |Text(x)|)
            && Latest(y) == if FieldOf(s) == UfMax then Latest(x) else FieldOf(s)
  {
    var s := ParseUrlChar(StateOf(x, connect), ch);
    NextIsEmpty(x, connect, ch);
    hide *;
    FieldsStep(x, s, ch);
  }

  lemma NextIsEmpty(x: Parts, connect: bool, ch: byte)
    requires Valid(x, connect) && ParseUrlChar(StateOf(x, connect), ch) != Dead
    ensures var s := ParseUrlChar(StateOf(x, connect), ch);
            && EmptyAfter(x, s) && s != SpacesBeforeUrl
            && (s in {SchemaSlash, SchemaSlashSlash} ==> x.slashes < 3)
  {
    hide IsUserinfo, IsAlpha, IsServer;
  }

  lemma FieldsStep(x: Parts, s: State, ch: byte)
    requires EmptyAfter(x, s) && s !in {Dead, SpacesBeforeUrl}
    requires s in {SchemaSlash, SchemaSlashSlash} ==> x.slashes < 3
    ensures Latest(x) != UfMax ==> Latest(x) in MainFields(x)
    ensures MainFields(Advance(x, s, ch)) == Enter(MainFields(x), Latest(x), FieldOf(s), |Text(x)|)
    ensures Latest(Advance(x, s, ch)) == if FieldOf(s) == UfMax then Latest(x) else FieldOf(s)
  {
    hide *;
    LatestIsSet(x);
    LatestStep(x, s, ch);
    FieldIsMain(s);
    OnlyMainFields(x);
    OnlyMainFields(Advance(x, s, ch));
    OnlyMainEntered(MainFields(x), Latest(x), FieldOf(s), |Text(x)|);
    var now, after := MainFields(Advance(x, s, ch)), Enter(MainFields(x), Latest(x), FieldOf(s), |Text(x)|);
    forall f | f in MAIN_FIELDS
      ensures (f in now <==> f in after) && (f in now ==> now[f] == after[f])
    {
      OneFieldStep(x, s, ch, f);
      UnfoldFollows(x, s, ch, f);
    }
    assert now == after;
  }

  lemma UnfoldFollows(x: Parts, s: State, ch: byte, f: Field)
    requires FieldFollows(x, s, ch, f)
    ensures Latest(x) != UfMax ==> Latest(x) in MainFields(x)
    ensures var now, after := MainFields(Advance(x, s, ch)), Enter(MainFields(x), Latest(x), FieldOf(s), |Text(x)|);
            (f in now <==> f in after) && (f in now ==> now[f] == after[f])
  {
  }

  lemma OnlyMainFields(x: Parts)
    ensures MainFields(x).Keys <= MAIN_FIELDS
  {
  }

  lemma OnlyMainEntered(fields: Fields, latest: Field, uf: Field, p: nat)
    requires fields.Keys <= MAIN_FIELDS && (uf != UfMax ==> uf in MAIN_FIELDS)
    requires uf == latest != UfMax ==> uf in fields
    ensures Enter(fields, latest, uf, p).Keys <= MAIN_FIELDS
  {
  }

  lemma LatestStep(x: Parts, s: State, ch: byte)
    requires EmptyAfter(x, s) && s !in {Dead, SpacesBeforeUrl}
    requires s in {SchemaSlash, SchemaSlashSlash} ==> x.slashes < 3
    ensures Latest(Advance(x, s, ch)) == if FieldOf(s) == UfMax then Latest(x) else FieldOf(s)
  {
  }

  lemma FieldIsMain(s: State)
    ensures FieldOf(s) != UfMax ==> FieldOf(s) in MAIN_FIELDS && MainPiece(FieldOf(s)) == PieceOf(s)
  {
  }

  predicate FieldFollows(x: Parts, s: State, ch: byte, f: Field) {
    && (Latest(x) != UfMax ==> Latest(x) in MainFields(x))
    && var now, after := MainFields(Advance(x, s, ch)), Enter(MainFields(x), Latest(x), FieldOf(s), |Text(x)|);
       (f in now <==> f in after) && (f in now ==> now[f] == after[f])
  }

  lemma OneFieldStep(x: Parts, s: State, ch: byte, f: Field)
    requires EmptyAfter(x, s) && s !in {Dead, SpacesBeforeUrl} && f in MAIN_FIELDS
    requires s in {SchemaSlash, SchemaSlashSlash} ==> x.slashes < 3
    ensures FieldFollows(x, s, ch, f)
  {
    PiecesStep(x, s, ch);
    FieldIsMain(s);
    var p, q := Pieces(x), Pieces(Advance(x, s, ch));
    hide Offset, Concat, Pieces, Advance, EmptyAfter, PieceSpan, MainPiece, PieceOf, FieldFollows;
    if f == FieldOf(s) {
      OwnSpan(p, q, MainPiece(f), ch, 0);
      OwnField(x, s, ch, f);
    } else {
      OtherPiece(f, s);
      OtherSpan(p, q, MainPiece(f), PieceOf(s), 0);
      OtherField(x, s, ch, f);
    }
  }

  lemma OwnField(x: Parts, s: State, ch: byte, f: Field)
    requires EmptyAfter(x, s) && f in MAIN_FIELDS && f == FieldOf(s)
    requires var p, q, k := Pieces(x), Pieces(Advance(x, s, ch)), MainPiece(f);
             && q[k] == p[k] + [ch]
             && (p[k] != [] ==> PieceSpan(q, k, 0) == Span(PieceSpan(p, k, 0).off, Short(PieceSpan(p, k, 0).len + 1)))
             && (p[k] == [] ==> PieceSpan(q, k, 0) == Span(Short(|Concat(p)|), 1))
    ensures FieldFollows(x, s, ch, f)
  {
    hide *;
    LatestIsSet(x);
    LatestAgain(x, s);
    FieldIsMain(s);
    MainIsField(f);
    TextIsConcat(x);
    MainField(x, f);
    MainField(Advance(x, s, ch), f);
    FollowsIf(x, s, ch, f);
  }

  lemma MainIsField(f: Field)
    ensures f in MAIN_FIELDS ==> f != UfMax
  {
  }

  lemma FollowsIf(x: Parts, s: State, ch: byte, f: Field)
    requires Latest(x) != UfMax ==> Latest(x) in MainFields(x)
    requires f == FieldOf(s) != UfMax && f in MainFields(Advance(x, s, ch))
    requires Latest(x) == f <==> f in MainFields(x)
    requires f in MainFields(x) ==>
      MainFields(Advance(x, s, ch))[f] == Span(MainFields(x)[f].off, Short(MainFields(x)[f].len + 1))
    requires f !in MainFields(x) ==> MainFields(Advance(x, s, ch))[f] == Span(Short(|Text(x)|), 1)
    ensures FieldFollows(x, s, ch, f)
  {
    hide Latest, Short, Text, MainFields, Advance;
  }

  lemma MainField(x: Parts, f: Field)
    requires f in MAIN_FIELDS
    ensures f in MainFields(x) <==> Pieces(x)[MainPiece(f)] != []
    ensures f in MainFields(x) ==> MainFields(x)[f] == PieceSpan(Pieces(x), MainPiece(f), 0)
  {
  }

  lemma OtherField(x: Parts, s: State, ch: byte, f: Field)
    requires f in MAIN_FIELDS && f != FieldOf(s)
    requires var p, q, k := Pieces(x), Pieces(Advance(x, s, ch)), MainPiece(f);
             && p[k] == q[k]
             && (p[k] != [] ==> PieceSpan(q, k, 0) == PieceSpan(p, k, 0))
    ensures FieldFollows(x, s, ch, f)
  {
    LatestIsSet(x);
    hide Offset, Concat, Pieces, Advance, Latest, EmptyAfter, PieceSpan, MainPiece, PieceOf, Short;
  }

  lemma TextIsConcat(x: Parts)
    ensures Text(x) == Concat(Pieces(x))
  {
  }

  lemma OtherPiece(f: Field, s: State)
    requires f in MAIN_FIELDS && f != FieldOf(s) && s !in {Dead, SpacesBeforeUrl}
    ensures MainPiece(f) != PieceOf(s)
  {
  }

  /** The field the byte belongs to grows, or is entered where the text ended. */
  lemma OwnSpan(p: seq<seq<byte>>, q: seq<seq<byte>>, k: nat, ch: byte, base: nat)
    requires k < |p| == |q| && q[k] == p[k] + [ch]
    requires forall i | 0 <= i < k :: p[i] == q[i]
    requires forall i | k < i < |p| :: p[i] == []
    ensures p[k] != [] ==> PieceSpan(q, k, base) == Span(PieceSpan(p, k, base).off, Short(PieceSpan(p, k, base).len + 1))
    ensures p[k] == [] ==> PieceSpan(q, k, base) == Span(Short(base + |Concat(p)|), 1)
  {
    hide Offset, Concat;
    SameOffset(p, q, k);
    if p[k] == [] {
      EmptyTail(p, k);
    }
  }

  lemma OtherSpan(p: seq<seq<byte>>, q: seq<seq<byte>>, k: nat, n: nat, base: nat)
    requires k < |p| == |q| && n != k
    requires forall i | 0 <= i < |p| && i != n :: p[i] == q[i]
    requires forall i | n < i < |p| :: p[i] == []
    ensures p[k] == q[k]
    ensures p[k] != [] ==> PieceSpan(q, k, base) == PieceSpan(p, k, base)
  {
    hide Offset, Concat;
    if p[k] != [] {
      SameOffset(p, q, k);
    }
  }

  /** One piece grows, or a delimiter is seen; the pieces after it are empty. */
  lemma PiecesStep(x: Parts, s: State, ch: byte)
    requires EmptyAfter(x, s) && s !in {Dead, SpacesBeforeUrl}
    requires s in {SchemaSlash, SchemaSlashSlash} ==> x.slashes < 3
    ensures var p, q := Pieces(x), Pieces(Advance(x, s, ch));
            && (forall i | 0 <= i < 8 && i != PieceOf(s) :: p[i] == q[i])
            && (forall i | PieceOf(s) < i < 8 :: p[i] == [])
            && (FieldOf(s) != UfMax ==> q[PieceOf(s)] == p[PieceOf(s)] + [ch])
  {
  }

  lemma LatestAgain(x: Parts, s: State)
    requires EmptyAfter(x, s)
    ensures FieldOf(s) != UfMax ==> (Latest(x) == FieldOf(s) <==> Pieces(x)[PieceOf(s)] != [])
  {
  }

  // ----- the second reading

  function Grown(span: Span): Span {
    Span(span.off, Short(span.len + 1))
  }

  /** What the second reading does to the fields when a byte leads from `s` to `t`. */
  function EnterHost(fields: Fields, s: HostState, t: HostState, p: nat): Fields
    requires UfHost in fields
    requires s == t == Port ==> UfPort in fields
    requires s == t == Userinfo ==> UfUserinfo in fields
  {
    match t
    case Host => fields[UfHost := Grown(if s != t then Span(Short(p), fields[UfHost].len) else fields[UfHost])]
    case V6 => fields[UfHost := Grown(if s != t then Span(Short(p), fields[UfHost].len) else fields[UfHost])]
    case V6ZoneStart => fields[UfHost := Grown(fields[UfHost])]
    case V6Zone => fields[UfHost := Grown(fields[UfHost])]
    case Port => fields[UfPort := Grown(if s != t then Span(Short(p), 0) else fields[UfPort])]
    case Userinfo => fields[UfUserinfo := Grown(if s != t then Span(Short(p), 0) else fields[UfUserinfo])]
    case _ => fields
  }

  /** Where a byte may lead from, and what was read of its piece. */
  lemma HostCameFrom(h: Authority, foundAt: bool, ch: byte)
    requires ValidAuthorityParts(h, foundAt)
    requires ParseHostChar(HostStateOf(h, foundAt), ch) != HostDead
    ensures var s, t := HostStateOf(h, foundAt), ParseHostChar(HostStateOf(h, foundAt), ch);
            && EmptyAfterHost(h, t) && t != UserinfoStart
            && (t in {Host, V6, Userinfo, Port} ==> (s == t <==> HostPieces(h)[HostPieceOf(t)] != []))
            && (t in {V6ZoneStart, V6Zone} ==> h.address != [])
            && (t == V6ZoneStart ==> !h.percent)
            && (t in {Host, V6} && s != t ==> h.address == [] && AddressLength(h) == 0)
  {
    hide IsUserinfo, IsHost, IsNum, IsAddress, IsZone;
  }

  lemma HostPiecesStep(h: Authority, t: HostState, ch: byte)
    requires EmptyAfterHost(h, t) && t !in {HostDead, UserinfoStart}
    ensures var p, q := HostPieces(h), HostPieces(AdvanceHost(h, t, ch));
            && (forall i | 0 <= i < 9 && i != HostPieceOf(t) :: p[i] == q[i])
            && (forall i | HostPieceOf(t) < i < 9 :: p[i] == [])
            && (t in {Host, V6, Userinfo, Port, V6Zone} ==> q[HostPieceOf(t)] == p[HostPieceOf(t)] + [ch])
  {
  }

  /** The three spans of an authority. */
  lemma HostSpansStep(h: Authority, t: HostState, ch: byte, base: u16)
    requires EmptyAfterHost(h, t) && t !in {HostDead, UserinfoStart}
    ensures var p, q := HostPieces(h), HostPieces(AdvanceHost(h, t, ch));
            && SpanFollows(p, q, 0, HostPieceOf(t), base) && SpanFollows(p, q, 8, HostPieceOf(t), base)
            && SpanFollows(p, q, 3, HostPieceOf(t), base)
  {
    HostPiecesStep(h, t, ch);
    var p, q, n := HostPieces(h), HostPieces(AdvanceHost(h, t, ch)), HostPieceOf(t);
    hide HostPieces, AdvanceHost, HostPieceOf, EmptyAfterHost, Offset, Concat, PieceSpan;
    forall k | k == 0 || k == 3 || k == 8
      ensures SpanFollows(p, q, k, n, base)
    {
      if k == n {
        OwnPiece(t);
        OwnSpan(p, q, k, ch, base);
      } else {
        OtherSpan(p, q, k, n, base);
      }
    }
  }

  lemma OwnPiece(t: HostState)
    requires t !in {HostDead, UserinfoStart} && HostPieceOf(t) in {0, 3, 8}
    ensures t in {Host, V6, Userinfo, Port}
  {
  }

  predicate SpanFollows(p: seq<seq<byte>>, q: seq<seq<byte>>, k: nat, n: nat, base: nat)
    requires k < |p| == |q|
  {
    if k == n then
      && q[k] != []
      && PieceSpan(q, k, base) == if p[k] != [] then Grown(PieceSpan(p, k, base)) else Span(Short(base + |Concat(p)|), 1)
    else
      p[k] == q[k] && (p[k] != [] ==> PieceSpan(q, k, base) == PieceSpan(p, k, base))
  }

  lemma PutAgain(fields: Fields, host: Span, userinfo: Option, port: Option, span: Span)
    ensures Put(fields, host, userinfo, port)[UfHost := span] == Put(fields, span, userinfo, port)
    ensures Put(fields, host, userinfo, port)[UfUserinfo := span] == Put(fields, host, Some(span), port)
    ensures Put(fields, host, userinfo, port)[UfPort := span] == Put(fields, host, userinfo, Some(span))
    ensures Put(fields, host, userinfo, port)[UfHost] == host
    ensures userinfo.Some? ==> UfUserinfo in Put(fields, host, userinfo, port)
    ensures userinfo.Some? ==> Put(fields, host, userinfo, port)[UfUserinfo] == userinfo.span
    ensures port.Some? ==> UfPort in Put(fields, host, userinfo, port)
    ensures port.Some? ==> Put(fields, host, userinfo, port)[UfPort] == port.span
  {
  }

  /** The host's run grows with the address, the percent sign and the zone. */
  lemma HostSpanStep(off: u16, base: u16, h: Authority, foundAt: bool, ch: byte)
    requires ValidAuthorityParts(h, foundAt)
    requires ParseHostChar(HostStateOf(h, foundAt), ch) != HostDead
    ensures var s, t := HostStateOf(h, foundAt), ParseHostChar(HostStateOf(h, foundAt), ch);
            var was, now := HostSpan(off, base, h), HostSpan(off, base, AdvanceHost(h, t, ch));
            now == if t in {Host, V6} && s != t then Grown(Span(Short(base + |HostText(h)|), was.len))
                   else if t in {Host, V6, V6ZoneStart, V6Zone} then Grown(was)
                   else was
  {
    var t := ParseHostChar(HostStateOf(h, foundAt), ch);
    hide ValidAuthorityParts, ParseHostChar, HostStateOf, Offset, Concat, EmptyAfterHost, HostPieces, AdvanceHost;
    hide AddressLength, HostPieceOf;
    HostCameFrom(h, foundAt, ch);
    HostSpansStep(h, t, ch, base);
    AddressStep(h, t, ch);
    AddressPiece(h, t);
    AddressPiece(AdvanceHost(h, t, ch), t);
    HostTextIs(h);
  }

  lemma AddressPiece(h: Authority, t: HostState)
    ensures HostPieces(h)[3] == h.address
    ensures HostPieceOf(t) == 3 <==> t in {Host, V6}
  {
  }

  lemma HostTextIs(h: Authority)
    ensures HostText(h) == Concat(HostPieces(h))
  {
  }

  lemma AddressStep(h: Authority, t: HostState, ch: byte)
    requires t == V6ZoneStart ==> !h.percent
    ensures AddressLength(AdvanceHost(h, t, ch)) ==
      AddressLength(h) + if t in {Host, V6, V6ZoneStart, V6Zone} then 1 else 0
  {
  }

  lemma RunsStep(base: u16, h: Authority, foundAt: bool, ch: byte)
    requires ValidAuthorityParts(h, foundAt)
    requires ParseHostChar(HostStateOf(h, foundAt), ch) != HostDead
    ensures var s, t := HostStateOf(h, foundAt), ParseHostChar(HostStateOf(h, foundAt), ch);
            var p, q := HostPieces(h), HostPieces(AdvanceHost(h, t, ch));
            && RunFollows(PieceRun(p, 0, base), PieceRun(q, 0, base), s, t, Userinfo, base + |HostText(h)|)
            && RunFollows(PieceRun(p, 8, base), PieceRun(q, 8, base), s, t, Port, base + |HostText(h)|)
  {
    var t := ParseHostChar(HostStateOf(h, foundAt), ch);
    HostCameFrom(h, foundAt, ch);
    HostSpansStep(h, t, ch, base);
    hide ValidAuthorityParts, ParseHostChar, HostStateOf, Offset, Concat, EmptyAfterHost, PieceSpan, HostPieces;
    HostTextIs(h);
  }

  /** The run of the field `own` is a state of: it begins, grows or stays. */
  predicate RunFollows(was: Option, now: Option, s: HostState, t: HostState, own: HostState, p: nat) {
    if t != own then now == was
    else if s != t then now == Some(Span(Short(p), 1))
    else was.Some? && now == Some(Grown(was.span))
  }

  /** The fields follow the parts of the authority. */
  lemma HostFieldStep(fields: Fields, base: u16, h: Authority, foundAt: bool, ch: byte)
    requires UfHost in fields && ValidAuthorityParts(h, foundAt)
    requires ParseHostChar(HostStateOf(h, foundAt), ch) != HostDead
    ensures var s, t := HostStateOf(h, foundAt), ParseHostChar(HostStateOf(h, foundAt), ch);
            var was := HostFields(fields, base, h);
            && UfHost in was && (s == t == Port ==> UfPort in was) && (s == t == Userinfo ==> UfUserinfo in was)
            && HostFields(fields, base, AdvanceHost(h, t, ch)) == EnterHost(was, s, t, base + |HostText(h)|)
  {
    var s, t := HostStateOf(h, foundAt), ParseHostChar(HostStateOf(h, foundAt), ch);
    var g, off := AdvanceHost(h, t, ch), fields[UfHost].off;
    HostSpanStep(off, base, h, foundAt, ch);
    RunsStep(base, h, foundAt, ch);
    hide ValidAuthorityParts, ParseHostChar, HostStateOf, AdvanceHost, PieceRun, HostSpan, Put, HostText, Short;
    PutAgain(fields, HostSpan(off, base, h), PieceRun(HostPieces(h), 0, base), PieceRun(HostPieces(h), 8, base),
             match t
             case Port => PieceRun(HostPieces(g), 8, base).span
             case Userinfo => PieceRun(HostPieces(g), 0, base).span
             case _ => HostSpan(off, base, g));
    PutAgain(fields, HostSpan(off, base, h), PieceRun(HostPieces(h), 0, base), PieceRun(HostPieces(h), 8, base),
             HostSpan(off, base, h));
  }
}
