/**
 The printer and the parser of a form as they run: loops over positions of the text.
 */
module MultipartParser {
  import opened Multipart
  import opened MultipartRoundTrip
  import opened MultipartFields

  // ----- printing

  lemma {:induction false} OneMorePart(fs: seq<Field>, i: nat, boundary: string)
    requires i < |fs|
    ensures PartTexts(fs[..i + 1], boundary) == PartTexts(fs[..i], boundary) + ("--" + boundary + PartText(fs[i]))
    decreases i
  {
    hide PartText;
    if i == 0 {
      assert fs[..1][1..] == [];
      assert fs[..1][0] == fs[0];
      assert "--" + boundary + PartText(fs[0]) + "" == "" + ("--" + boundary + PartText(fs[0]));
    } else {
      OneMorePart(fs[1..], i - 1, boundary);
      assert fs[..i + 1][1..] == fs[1..][..i] && fs[..i][1..] == fs[1..][..i - 1];
      var a, b, c := "--" + boundary + PartText(fs[0]), PartTexts(fs[1..][..i - 1], boundary), "--" + boundary + PartText(fs[i]);
      assert a + (b + c) == a + b + c;
    }
  }

  method AppendDisposition(body: string, f: Field) returns (r: string)
    ensures r == body + DispositionRow(f)
  {
    r := body + "Content-Disposition: ";
    r := r + f.disposition;
    if f.name != "" {
      r := r + ("; " + "name" + "=\"" + f.name + "\"");
    }
    if f.fileName != "" {
      r := r + ("; " + "filename" + "=\"" + f.fileName + "\"");
    }
  }

  method AppendRow(body: string, title: string, text: string) returns (r: string)
    ensures r == body + Row(title, text)
  {
    r := body;
    if text != "" {
      r := r + (title + ": " + text + CRLF);
    }
  }

  method AppendPart(body: string, f: Field, boundary: string) returns (r: string)
    ensures r == body + ("--" + boundary + PartText(f))
  {
    hide Row, Parameter, DispositionRow;
    var part := AppendDisposition(CRLF, f);
    part := part + CRLF;
    part := AppendRow(part, "Content-Type", f.contentType);
    part := AppendRow(part, "Content-Transfer-Encoding", f.encoding);
    part := part + CRLF;
    part := part + f.value;
    part := part + CRLF;
    assert part == PartText(f);
    r := body + ("--" + boundary + part);
  }

  /** `to_string`. */
  method ToString(fields: FieldList) returns (body: string)
    ensures body == FormText(fields.list, fields.boundary)
  {
    body := "";
    var i := 0;
    assert fields.list[..0] == [];
    while i < |fields.list|
      invariant i <= |fields.list| && body == PartTexts(fields.list[..i], fields.boundary)
    {
      OneMorePart(fields.list, i, fields.boundary);
      body := AppendPart(body, fields.list[i], fields.boundary);
      i := i + 1;
    }
    assert fields.list[..i] == fields.list;
    body := body + ("--" + fields.boundary + "--" + CRLF);
  }

  // ----- reading

  /** `find` from a position is `find` in what is left. */
  lemma FindShifted(s: string, pat: string, from: nat)
    requires from <= |s|
    ensures Find(s, pat, from) == if Find(s[from..], pat, 0) == -1 then -1 else Find(s[from..], pat, 0) + from
  {
    var rest := s[from..];
    assert s == s[..from] + rest;
    forall j | from <= j
      ensures At(s, pat, j) <==> At(rest, pat, j - from)
    {
      AtShifted(s[..from], rest, pat, j);
    }
    var k, m := Find(s, pat, from), Find(rest, pat, 0);
    if k != -1 { assert At(rest, pat, k - from); }
    if m != -1 { assert At(s, pat, m + from); }
  }

  /** One parameter: it needs an equals sign. */
  function ReadParameter(f: Field, kv: string): Outcome {
    var eq := FindChar(kv, '=');
    if eq == |kv| then Malformed
    else Parsed(ParseParameter(f, Trim(kv[..eq]), Unquote(Trim(kv[eq + 1..]))))
  }

  lemma ParametersFrom(f: Field, kvs: string, pos: nat)
    requires pos <= |kvs|
    ensures var end := pos + FindChar(kvs[pos..], ';');
            end <= |kvs| &&
            ParseParameters(f, kvs[pos..]) ==
              match ReadParameter(f, kvs[pos..end])
              case Parsed(g) => if end == |kvs| then Parsed(g) else ParseParameters(g, kvs[end + 1..])
              case other => Malformed
  {
    hide Trim, Unquote, ParseParameter, FindChar;
    var rest := kvs[pos..];
    var n := FindChar(rest, ';');
    assert rest[..n] == kvs[pos..pos + n];
    if n < |rest| { assert rest[n + 1..] == kvs[pos + n + 1..]; }
  }

  method ReadOne(f: Field, kv: string) returns (o: Outcome)
    ensures o == ReadParameter(f, kv)
  {
    hide Trim, Unquote, ParseParameter;
    var eq := FindChar(kv, '=');
    if eq == |kv| {
      return Malformed;
    }
    var k, v := Trim(kv[..eq]), Trim(kv[eq + 1..]);
    v := Unquote(v);
    o := Parsed(ParseParameter(f, k, v));
  }

  /** The loop over the parameters of a disposition. */
  method ReadParameters(f: Field, kvs: string) returns (o: Outcome)
    ensures o == ParseParameters(f, kvs)
  {
    hide *;
    var g, pos := f, 0;
    assert kvs[0..] == kvs;
    while true
      invariant pos <= |kvs| && ParseParameters(g, kvs[pos..]) == ParseParameters(f, kvs)
      decreases |kvs| - pos
    {
      ParametersFrom(g, kvs, pos);
      var end := pos + FindChar(kvs[pos..], ';');
      o := ReadOne(g, kvs[pos..end]);
      if !o.Parsed? {
        return Malformed;
      }
      g := o.field;
      if end == |kvs| {
        return;
      }
      pos := end + 1;
    }
  }

  /** One row of a header. */
  method ReadRow(f: Field, row: string) returns (o: Outcome)
    ensures o == ParseRow(f, row)
  {
    hide Trim, FindChar, SameIgnoringCase, ParseParameters;
    var colon := FindChar(row, ':');
    if colon == |row| {
      return Malformed;
    }
    var title, rest := Trim(row[..colon]), row[colon + 1..];
    if SameIgnoringCase(title, "Content-Disposition") {
      var end := FindChar(rest, ';');
      var g := f.(disposition := Trim(rest[..end]));
      if end == |rest| {
        return Parsed(g);
      }
      o := ReadParameters(g, rest[end + 1..]);
    } else if SameIgnoringCase(title, "Content-Type") {
      o := if rest == "" then Threw else Parsed(f.(contentType := rest[1..]));
    } else if SameIgnoringCase(title, "Content-Transfer-Encoding") {
      o := if rest == "" then Threw else Parsed(f.(encoding := rest[1..]));
    } else {
      o := Parsed(f);
    }
  }

  lemma RowsFrom(f: Field, header: string, from: nat)
    requires from <= |header|
    ensures var end := Find(header, CRLF, from);
            && (end != -1 ==> from <= end && end + 2 <= |header|)
            && ParseRows(f, header[from..]) ==
                 match ParseRow(f, if end == -1 then header[from..] else header[from..end])
                 case Parsed(g) => if end == -1 then Parsed(g) else ParseRows(g, header[end + 2..])
                 case other => other
  {
    hide ParseRow, Find;
    FindShifted(header, CRLF, from);
    var end := Find(header, CRLF, from);
    if end != -1 {
      assert header[from..][..end - from] == header[from..end];
      assert header[from..][end - from + 2..] == header[end + 2..];
    }
  }

  /** The loop over the rows of a header. */
  method ReadRows(header: string) returns (o: Outcome)
    ensures o == ParseRows(NO_FIELD, header)
  {
    var f, from := NO_FIELD, 0;
    assert header[0..] == header;
    while true
      invariant from <= |header| && ParseRows(f, header[from..]) == ParseRows(NO_FIELD, header)
      decreases |header| - from
    {
      hide ParseRow, ParseRows, Find;
      RowsFrom(f, header, from);
      var end := Find(header, CRLF, from);
      o := ReadRow(f, if end == -1 then header[from..] else header[from..end]);
      if !o.Parsed? || end == -1 {
        return;
      }
      f := o.field;
      from := end + 2;
    }
  }

  /** `parse_field`. */
  method ReadField(content: string) returns (o: Outcome)
    ensures o == ParseField(content)
  {
    hide ParseRows, Find;
    if |content| < 8 || content[..2] != CRLF || content[|content| - 2..] != CRLF {
      return Malformed;
    }
    var inner := content[2..|content| - 2];
    var split := Find(inner, CRLF + CRLF, 0);
    if split == -1 {
      return Malformed;
    }
    o := ReadRows(inner[..split]);
    if o.Parsed? {
      o := Parsed(o.field.(value := inner[split + 4..]));
    }
  }

  /** One turn of the loop, from a position of the body. */
  lemma ExecuteFrom(fs: seq<Field>, body: string, bound: string, i: nat)
    requires bound != "" && i <= |body|
    ensures var r := Execute(fs, body[i..], bound);
            if i == |body| || !At(body, bound, i) then r == Form(fs)
            else
              var j := i + |bound|;
              if At(body, "--", j) then r == Form(fs)
              else
                var next := Find(body, bound, j);
                if next == -1 then r == Form(fs)
                else
                  j <= next <= |body| &&
                  match ParseField(body[j..next])
                  case Parsed(f) => r == Execute(Insert(fs, f), body[next..], bound)
                  case Malformed => r == Form(fs)
                  case Threw => r == Exception
  {
    hide ParseField, Find, Insert;
    var left := body[i..];
    assert body == body[..i] + left;
    AtShifted(body[..i], left, bound, i);
    if i < |body| && At(body, bound, i) {
      var j := i + |bound|;
      assert left[|bound|..] == body[j..];
      assert body == body[..j] + body[j..];
      AtShifted(body[..j], body[j..], "--", j);
      FindShifted(body, bound, j);
      var next := Find(body, bound, j);
      if next != -1 {
        assert body[j..][..next - j] == body[j..next];
        assert body[j..][next - j..] == body[next..];
      }
    }
  }

  /** A turn of the loop: whether it goes on, and where. */
  method ReadPart(fields: FieldList, body: string, bound: string, i: nat) returns (more: bool, threw: bool, next: nat)
    requires fields.Valid() && bound != "" && i < |body|
    modifies fields`list, fields`index
    ensures fields.Valid()
    ensures more ==> !threw && i < next <= |body|
    ensures more ==> Execute(old(fields.list), body[i..], bound) == Execute(fields.list, body[next..], bound)
    ensures !more ==> Execute(old(fields.list), body[i..], bound) == if threw then Exception else Form(fields.list)
  {
    hide *;
    more, threw, next := false, false, i;
    ExecuteFrom(fields.list, body, bound, i);
    if !At(body, bound, i) {
      return;
    }
    var j := i + |bound|;
    if At(body, "--", j) {
      return;
    }
    var found := Multipart.Find(body, bound, j);
    if found == -1 {
      return;
    }
    var o := ReadField(body[j..found]);
    match o
    case Malformed =>
    case Threw =>
      threw := true;
    case Parsed(f) =>
      var _ := fields.Insert(f);
      more, next := true, found;
  }

  /** `multipart_parser_execute`: the fields read, or an exception. */
  method ParseBody(body: string, boundary: string) returns (threw: bool, fields: FieldList)
    ensures fresh(fields) && fields.Valid() && fields.boundary == boundary
    ensures ParseForm(body, boundary) == if threw then Exception else Form(fields.list)
  {
    fields := new FieldList(boundary);
    var bound := "--" + boundary;
    var i := 0;
    assert body[0..] == body;
    while i < |body|
      invariant i <= |body| && fresh(fields) && fields.Valid() && fields.boundary == boundary
      invariant Execute(fields.list, body[i..], bound) == ParseForm(body, boundary)
    {
      hide Execute;
      var more, next;
      more, threw, next := ReadPart(fields, body, bound, i);
      if !more {
        return;
      }
      i := next;
    }
    threw := false;
  }
}
