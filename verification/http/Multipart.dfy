/**
 Multipart forms: their text, and the reading of it back into fields.
 */
module Multipart {

  const CRLF := "\r\n"

  datatype Field = Field(disposition: string, name: string, value: string, contentType: string,
                         fileName: string, encoding: string)

  const NO_FIELD := Field("", "", "", "", "", "")

  // ----- searching

  /** `pat` stands at `i`. */
  predicate At(s: string, pat: string, i: nat) {
    i + |pat| <= |s| && s[i..i + |pat|] == pat
  }

  /** `find`: the first place from `from` on, or -1. */
  function Find(s: string, pat: string, from: nat): (k: int)
    ensures k == -1 || (from <= k && At(s, pat, k))
    ensures forall j | from <= j && (k == -1 || j < k) :: !At(s, pat, j)
    decreases if from <= |s| then |s| - from + 1 else 0
  {
    if from + |pat| > |s| then -1
    else if At(s, pat, from) then from
    else Find(s, pat, from + 1)
  }

  function FindChar(s: string, c: char): (k: nat)
    ensures k <= |s| && c !in s[..k]
    ensures k < |s| ==> s[k] == c
  {
    if s == "" || s[0] == c then 0
    else
      var k := 1 + FindChar(s[1..], c);
      assert s[..k] == [s[0]] + s[1..][..k - 1];
      k
  }

  // ----- trimming and comparing

  /** `isspace`. */
  predicate IsSpace(c: char) {
    c == ' ' || '\t' <= c <= '\r'
  }

  function TrimLeft(s: string): string {
    if s != "" && IsSpace(s[0]) then TrimLeft(s[1..]) else s
  }

  function TrimRight(s: string): string {
    if s != "" && IsSpace(s[|s| - 1]) then TrimRight(s[..|s| - 1]) else s
  }

  function Trim(s: string): string {
    TrimRight(TrimLeft(s))
  }

  /** No white space at either end. */
  predicate Trimmed(s: string) {
    s != "" ==> !IsSpace(s[0]) && !IsSpace(s[|s| - 1])
  }

  function Lower(c: char): char {
    if 'A' <= c <= 'Z' then (c as int + 32) as char else c
  }

  /** `iequals`. */
  predicate SameIgnoringCase(a: string, b: string) {
    |a| == |b| && forall i | 0 <= i < |a| :: Lower(a[i]) == Lower(b[i])
  }

  // ----- the text of a form

  function Parameter(key: string, value: string): string {
    if value == "" then "" else "; " + key + "=\"" + value + "\""
  }

  function DispositionRow(f: Field): string {
    "Content-Disposition: " + f.disposition + Parameter("name", f.name) + Parameter("filename", f.fileName)
  }

  function Row(title: string, text: string): string {
    if text == "" then "" else title + ": " + text + CRLF
  }

  /** What stands between two boundaries. */
  function PartText(f: Field): string {
    CRLF + DispositionRow(f) + CRLF + Row("Content-Type", f.contentType) +
    Row("Content-Transfer-Encoding", f.encoding) + CRLF + f.value + CRLF
  }

  function PartTexts(fs: seq<Field>, boundary: string): string {
    if fs == [] then "" else "--" + boundary + PartText(fs[0]) + PartTexts(fs[1..], boundary)
  }

  /** `to_string`. */
  function FormText(fs: seq<Field>, boundary: string): string {
    PartTexts(fs, boundary) + ("--" + boundary + "--" + CRLF)
  }

  // ----- reading a field

  /** `parse_field` returns false, or a `substr` throws. */
  datatype Outcome = Parsed(field: Field) | Malformed | Threw

  function Unquote(v: string): string {
    var w := if v != "" && v[0] == '"' then v[1..] else v;
    if w != "" && w[|w| - 1] == '"' then w[..|w| - 1] else w
  }

  function ParseParameter(f: Field, key: string, v: string): Field {
    if SameIgnoringCase(key, "name") then f.(name := v)
    else if SameIgnoringCase(key, "filename") then f.(fileName := v)
    else f
  }

  /** The parameters of the disposition, separated by semicolons. */
  function ParseParameters(f: Field, kvs: string): Outcome
    decreases |kvs|
  {
    var end := FindChar(kvs, ';');
    var kv := kvs[..end];
    var eq := FindChar(kv, '=');
    if eq == |kv| then Malformed
    else
      var g := ParseParameter(f, Trim(kv[..eq]), Unquote(Trim(kv[eq + 1..])));
      if end == |kvs| then Parsed(g) else ParseParameters(g, kvs[end + 1..])
  }

  function ParseRow(f: Field, row: string): Outcome {
    var colon := FindChar(row, ':');
    if colon == |row| then Malformed
    else
      var title, rest := Trim(row[..colon]), row[colon + 1..];
      if SameIgnoringCase(title, "Content-Disposition") then
        var end := FindChar(rest, ';');
        var g := f.(disposition := Trim(rest[..end]));
        if end == |rest| then Parsed(g) else ParseParameters(g, rest[end + 1..])
      else if SameIgnoringCase(title, "Content-Type") then
        if rest == "" then Threw else Parsed(f.(contentType := rest[1..]))
      else if SameIgnoringCase(title, "Content-Transfer-Encoding") then
        if rest == "" then Threw else Parsed(f.(encoding := rest[1..]))
      else Parsed(f)
  }

  function ParseRows(f: Field, header: string): Outcome
    decreases |header|
  {
    var end := Find(header, CRLF, 0);
    match ParseRow(f, if end == -1 then header else header[..end])
    case Parsed(g) => if end == -1 then Parsed(g) else ParseRows(g, header[end + 2..])
    case other => other
  }

  /** `parse_field`. */
  function ParseField(content: string): Outcome {
    if |content| < 8 || content[..2] != CRLF || content[|content| - 2..] != CRLF then Malformed
    else
      var inner := content[2..|content| - 2];
      var split := Find(inner, CRLF + CRLF, 0);
      if split == -1 then Malformed
      else
        match ParseRows(NO_FIELD, inner[..split])
        case Parsed(g) => Parsed(g.(value := inner[split + 4..]))
        case other => other
  }

  // ----- the order of the fields

  /** The order of `std::string`. */
  predicate Less(a: string, b: string) {
    if b == "" then false
    else if a == "" then true
    else a[0] < b[0] || (a[0] == b[0] && Less(a[1..], b[1..]))
  }

  /** Where a name goes: behind all that are not greater. */
  function UpperBound(fs: seq<Field>, name: string): (k: nat)
    ensures k <= |fs|
  {
    if fs == [] || Less(name, fs[0].name) then 0 else 1 + UpperBound(fs[1..], name)
  }

  function Insert(fs: seq<Field>, f: Field): seq<Field> {
    var k := UpperBound(fs, f.name);
    fs[..k] + [f] + fs[k..]
  }

  // ----- reading a form

  datatype Form = Form(fields: seq<Field>) | Exception

  /** The loop of `multipart_parser_execute`, from what is left of the body. */
  function Execute(fs: seq<Field>, body: string, bound: string): Form
    requires bound != ""
    decreases |body|
  {
    if body == "" || !At(body, bound, 0) then Form(fs)
    else
      var rest := body[|bound|..];
      if At(rest, "--", 0) then Form(fs)
      else
        var next := Find(rest, bound, 0);
        if next == -1 then Form(fs)
        else
          match ParseField(rest[..next])
          case Parsed(f) => Execute(Insert(fs, f), rest[next..], bound)
          case Malformed => Form(fs)
          case Threw => Exception
  }

  function ParseForm(body: string, boundary: string): Form {
    Execute([], body, "--" + boundary)
  }
}
