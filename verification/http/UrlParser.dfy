/**
 `http_parser_parse_url` and `http_parse_host` as they run: loops over the buffer that set
 the fields of the result in place.
 */
module UrlParser {
  import opened Octets
  import opened UrlGrammar
  import opened UrlHost
  import opened UrlFields
  import opened UrlReading
  import opened HttpLength

  lemma NextChar(connect: bool, text: seq<byte>, p: nat)
    requires p < |text|
    ensures Scan(connect, text[..p + 1]) == ParseUrlChar(Scan(connect, text[..p]), text[p])
    ensures Read(connect, text[..p + 1]) == Advance(Read(connect, text[..p]), Scan(connect, text[..p + 1]), text[p])
  {
    assert text[..p + 1][..p] == text[..p];
  }

  lemma NextHostChar(foundAt: bool, text: seq<byte>, p: nat)
    requires p < |text|
    ensures ScanHost(foundAt, text[..p + 1]) == ParseHostChar(ScanHost(foundAt, text[..p]), text[p])
    ensures ReadHost(foundAt, text[..p + 1]) == AdvanceHost(ReadHost(foundAt, text[..p]), ScanHost(foundAt, text[..p + 1]), text[p])
  {
    assert text[..p + 1][..p] == text[..p];
  }

  lemma {:induction false} DeadScan(connect: bool, text: seq<byte>, p: nat)
    requires p <= |text| && Scan(connect, text[..p]) == Dead
    ensures Scan(connect, text) == Dead
    decreases |text|
  {
    if p == |text| {
      assert text[..p] == text;
    } else {
      assert text[..|text| - 1][..p] == text[..p];
      DeadScan(connect, text[..|text| - 1], p);
    }
  }

  lemma {:induction false} DeadHostScan(foundAt: bool, text: seq<byte>, p: nat)
    requires p <= |text| && ScanHost(foundAt, text[..p]) == HostDead
    ensures ScanHost(foundAt, text) == HostDead
    decreases |text|
  {
    if p == |text| {
      assert text[..p] == text;
    } else {
      assert text[..|text| - 1][..p] == text[..p];
      DeadHostScan(foundAt, text[..|text| - 1], p);
    }
  }

  /** An `@` is seen exactly by entering the state that remembers one. */
  lemma AtIsSeen(x: Parts, connect: bool, ch: byte)
    requires Valid(x, connect) && ParseUrlChar(StateOf(x, connect), ch) != Dead
    ensures var s := ParseUrlChar(StateOf(x, connect), ch);
            FoundAt(Advance(x, s, ch)) <==> FoundAt(x) || s == ServerWithAt
  {
    hide Valid, StateOf, IsAlpha;
    AtIsNotUserinfo();
  }

  lemma AtIsNotUserinfo()
    ensures !IsUserinfo(AT)
  {
  }

  class HttpParserUrl {
    /** `field_set` and `field_data`: the fields whose bit is set, with their runs. */
    var fields: Fields
    var port: u16

    /** `http_parser_url_init`: no field is set. */
    constructor ()
      ensures fields == map[] && port == 0
    {
      fields, port := map[], 0;
    }

    /** Sets a field's run, with its bit. */
    method SetField(f: Field, span: Span)
      modifies `fields
      ensures fields == old(fields)[f := span]
    {
      fields := fields[f := span];
    }

    /** The first loop of `http_parser_parse_url`. */
    method ReadFields(connect: bool, buf: seq<byte>) returns (ok: bool, foundAt: bool)
      modifies `fields
      ensures ok == (Scan(connect, buf) != Dead)
      ensures ok ==> fields == MainFields(Read(connect, buf)) && foundAt == FoundAt(Read(connect, buf))
    {
      hide Scan, Read, Valid, StateOf, ParseUrlChar, Advance, MainFields, FoundAt, Text;
      fields, foundAt := map[], false;
      var s, oldUf, p := if connect then ServerStart else SpacesBeforeUrl, UfMax, 0;
      assert buf[..0] == [];
      Begin(connect);
      while p < |buf|
        invariant p <= |buf| && s == Scan(connect, buf[..p]) != Dead
        invariant fields == MainFields(Read(connect, buf[..p]))
        invariant oldUf == Latest(Read(connect, buf[..p]))
        invariant foundAt == FoundAt(Read(connect, buf[..p]))
      {
        ghost var x := Read(connect, buf[..p]);
        ScanIsGrammatical(connect, buf[..p]);
        NextChar(connect, buf, p);
        s := ParseUrlChar(s, buf[p]);
        if s == Dead {
          DeadScan(connect, buf, p + 1);
          return false, foundAt;
        }
        FieldStep(x, connect, buf[p]);
        AtIsSeen(x, connect, buf[p]);
        if s == ServerWithAt {
          foundAt := true;
        }
        var uf := FieldOf(s);
        if uf != UfMax {
          if uf == oldUf {
            SetField(uf, Span(fields[uf].off, Short(fields[uf].len + 1)));
          } else {
            SetField(uf, Span(Short(p), 1));
            oldUf := uf;
          }
        }
        p := p + 1;
      }
      assert buf[..p] == buf;
      ok := true;
    }

    /** `http_parse_host`: the run of the host is read again and divided. */
    method ParseHost(buf: seq<byte>, foundAt: bool) returns (ok: bool)
      requires UfHost in fields && InBounds(fields[UfHost], buf)
      modifies `fields
      ensures ok == HostEnds(ScanHost(foundAt, Slice(buf, old(fields)[UfHost])))
      ensures ok ==> fields == HostFields(old(fields), old(fields)[UfHost].off, ReadHost(foundAt, Slice(buf, old(fields)[UfHost])))
    {
      hide ScanHost, ReadHost, ValidAuthorityParts, HostStateOf, ParseHostChar, AdvanceHost, HostFields, HostText;
      ghost var before := fields;
      var off := fields[UfHost].off;
      var end := off + fields[UfHost].len;
      ghost var text := buf[off..end];
      SetField(UfHost, Span(off, 0));
      var s, p := if foundAt then UserinfoStart else HostStart, off;
      assert text[..0] == [];
      BeginHost(before, foundAt);
      while p < end
        invariant off <= p <= end && s == ScanHost(foundAt, text[..p - off]) != HostDead
        invariant fields == HostFields(before, off, ReadHost(foundAt, text[..p - off]))
      {
        ghost var h := ReadHost(foundAt, text[..p - off]);
        ScanHostIsGrammatical(foundAt, text[..p - off]);
        NextHostChar(foundAt, text, p - off);
        var t := ParseHostChar(s, buf[p]);
        if t == HostDead {
          DeadHostScan(foundAt, text, p - off + 1);
          return false;
        }
        HostFieldStep(before, off, h, foundAt, buf[p]);
        EnterState(s, t, p);
        s := t;
        p := p + 1;
      }
      assert text[..p - off] == text;
      ok := HostEnds(s);
    }

    /** The switch on the new state. */
    method EnterState(s: HostState, t: HostState, p: nat)
      requires UfHost in fields
      requires s == t == Port ==> UfPort in fields
      requires s == t == Userinfo ==> UfUserinfo in fields
      modifies `fields
      ensures fields == EnterHost(old(fields), s, t, p)
    {
      if t == Host || t == V6 {
        if s != t {
          SetField(UfHost, Span(Short(p), fields[UfHost].len));
        }
        SetField(UfHost, Grown(fields[UfHost]));
      } else if t == V6ZoneStart || t == V6Zone {
        SetField(UfHost, Grown(fields[UfHost]));
      } else if t == Port {
        if s != t {
          SetField(UfPort, Span(Short(p), 0));
        }
        SetField(UfPort, Grown(fields[UfPort]));
      } else if t == Userinfo {
        if s != t {
          SetField(UfUserinfo, Span(Short(p), 0));
        }
        SetField(UfUserinfo, Grown(fields[UfUserinfo]));
      }
    }

    /** The loop over the port's digits; a value past 16 bits is refused. */
    method ReadPort(digits: seq<byte>) returns (ok: bool)
      modifies `port
      ensures ok == PortValue(digits).PortNumber?
      ensures port == if ok then PortValue(digits).value else old(port)
    {
      var v, i := 0, 0;
      assert digits[..0] == [];
      while i < |digits|
        invariant i <= |digits| && 0 <= v <= 0xffff && PortValue(digits[..i]) == PortNumber(v)
        invariant port == old(port)
      {
        assert digits[..i + 1][..i] == digits[..i];
        v := v * 10;
        v := (v + (SignedChar(digits[i]) - 48)) % 0x1_0000_0000_0000_0000;
        i := i + 1;
        if v > 0xffff {
          StaysTooLarge(digits, i);
          return false;
        }
      }
      assert digits[..i] == digits;
      port := v;
      ok := true;
    }

    /** `http_parser_parse_url`. */
    method ParseUrl(connect: bool, buf: seq<byte>) returns (result: int)
      modifies this
      ensures result == 0 <==> Parse(connect, buf).Accepted?
      ensures result == 0 ==> Url(fields, port) == Parse(connect, buf).url
    {
      hide Scan, Read, ScanHost, ReadHost, MainFields, HostFields, HostEnds, Text, FoundAt, Valid, StateOf;
      if |buf| == 0 {
        return 1;
      }
      port := 0;
      var ok, foundAt := ReadFields(connect, buf);
      if !ok {
        return 1;
      }
      ScanIsGrammatical(connect, buf);
      ghost var x := Read(connect, buf);
      if UfSchema in fields && UfHost !in fields {
        return 1;
      }
      ghost var digits := [];
      if UfHost in fields {
        MainInBounds(x, UfHost);
        ok := ParseHost(buf, foundAt);
        if !ok {
          return 1;
        }
        digits := PortDigits(buf, x);
        PortRun(buf, x);
      } else {
        NoPort(x);
      }
      if connect && fields.Keys != {UfHost, UfPort} {
        return 1;
      }
      if UfPort in fields {
        ok := ReadPort(Slice(buf, fields[UfPort]));
        if !ok {
          return 1;
        }
      }
      result := 0;
    }
  }

  lemma Begin(connect: bool)
    ensures Scan(connect, []) == (if connect then ServerStart else SpacesBeforeUrl)
    ensures MainFields(Read(connect, [])) == map[]
    ensures Latest(Read(connect, [])) == UfMax && !FoundAt(Read(connect, []))
  {
  }

  lemma BeginHost(fields: Fields, foundAt: bool)
    requires UfHost in fields
    ensures ScanHost(foundAt, []) == if foundAt then UserinfoStart else HostStart
    ensures HostFields(fields, fields[UfHost].off, ReadHost(foundAt, [])) == fields[UfHost := Span(fields[UfHost].off, 0)]
  {
  }

  lemma NoPort(x: Parts)
    ensures UfPort !in MainFields(x)
  {
  }

  /** The port's run, when there is one, lies in the buffer and holds digits. */
  lemma PortRun(buf: seq<byte>, x: Parts)
    requires Text(x) == buf && UfHost in MainFields(x) && HostAccepted(buf, x)
    ensures var fields := HostFields(MainFields(x), MainFields(x)[UfHost].off, SecondReading(buf, x));
            UfPort in fields ==> InBounds(fields[UfPort], buf) && Slice(buf, fields[UfPort]) == PortDigits(buf, x)
  {
    var h, base := SecondReading(buf, x), MainFields(x)[UfHost].off;
    ScanHostIsGrammatical(FoundAt(x), AuthorityOf(buf, x));
    MainInBounds(x, UfHost);
    PortInBounds(base, h, buf);
    NoPort(x);
    hide MainFields, SecondReading, HostAccepted, Text, HostText, HostSpan, PieceSpan, HostPieces, Valid;
    PortPiece(h);
  }

  lemma PortPiece(h: Authority)
    ensures HostPieces(h)[8] == h.port
  {
  }

  lemma {:induction false} StaysTooLarge(digits: seq<byte>, i: nat)
    requires i <= |digits| && PortValue(digits[..i]) == TooLarge
    ensures PortValue(digits) == TooLarge
    decreases |digits|
  {
    if i == |digits| {
      assert digits[..i] == digits;
    } else {
      assert digits[..|digits| - 1][..i] == digits[..i];
      StaysTooLarge(digits[..|digits| - 1], i);
    }
  }
}
