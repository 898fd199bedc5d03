/**
 Reading a form's text back gives its fields.
 */
module MultipartRoundTrip {
  import opened Multipart

  // ----- searching in joined texts

  predicate Free(s: string, pat: string) {
    forall i | 0 <= i <= |s| :: !At(s, pat, i)
  }

  lemma FindIs(s: string, pat: string, k: nat)
    requires At(s, pat, k) && forall j | 0 <= j < k :: !At(s, pat, j)
    ensures Find(s, pat, 0) == k
  {
  }

  lemma FindNone(s: string, pat: string)
    requires Free(s, pat)
    ensures Find(s, pat, 0) == -1
  {
    var k := Find(s, pat, 0);
    assert k != -1 ==> k <= |s|;
  }

  lemma FindCharIs(a: string, c: char, b: string)
    requires c !in a
    ensures FindChar(a + [c] + b, c) == |a|
  {
    var s := a + [c] + b;
    var k := FindChar(s, c);
    assert s[|a|] == c;
    assert forall j | 0 <= j < |a| :: s[j] == a[j];
    forall j | 0 <= j < k
      ensures s[j] != c
    {
      assert s[..k][j] in s[..k];
    }
  }

  lemma FindCharNone(s: string, c: char)
    requires c !in s
    ensures FindChar(s, c) == |s|
  {
  }

  lemma FreeConcat(a: string, b: string)
    requires Free(a, CRLF) && Free(b, CRLF)
    requires a != "" && b != "" ==> !(a[|a| - 1] == '\r' && b[0] == '\n')
    ensures Free(a + b, CRLF)
  {
    var s := a + b;
    forall i | 0 <= i <= |s|
      ensures !At(s, CRLF, i)
    {
      if i + 2 <= |a| {
        assert s[i..i + 2] == a[i..i + 2];
        assert !At(a, CRLF, i);
      } else if |a| <= i && i + 2 <= |s| {
        assert s[i..i + 2] == b[i - |a|..i - |a| + 2];
        assert !At(b, CRLF, i - |a|);
      } else if i + 2 <= |s| {
        assert s[i..i + 2][0] == a[|a| - 1] && s[i..i + 2][1] == b[0];
      }
    }
  }

  /** A text without line ends ends at the line end behind it. */
  lemma LineEnds(a: string, b: string)
    requires Free(a, CRLF)
    ensures Find(a + CRLF + b, CRLF, 0) == |a|
  {
    var s := a + CRLF + b;
    assert s[|a|..|a| + 2] == CRLF;
    forall j | 0 <= j < |a|
      ensures !At(s, CRLF, j)
    {
      if j + 2 <= |a| {
        assert s[j..j + 2] == a[j..j + 2];
        assert !At(a, CRLF, j);
      } else {
        assert s[j..j + 2][1] == '\r';
      }
    }
    FindIs(s, CRLF, |a|);
  }

  // ----- trimming

  lemma TrimKeeps(s: string)
    requires Trimmed(s)
    ensures Trim(s) == s
  {
  }

  lemma TrimSpace(s: string)
    requires Trimmed(s)
    ensures Trim(" " + s) == s
  {
    assert (" " + s)[1..] == s;
    assert TrimLeft(" " + s) == TrimLeft(s);
  }

  lemma UnquoteQuoted(v: string)
    ensures Trim("\"" + v + "\"") == "\"" + v + "\""
    ensures Unquote("\"" + v + "\"") == v
  {
    var q := "\"" + v + "\"";
    TrimKeeps(q);
    assert q[1..] == v + "\"";
    assert q[1..][..|v|] == v;
  }

  // ----- one row

  /** The texts of a field that its text can carry. */
  predicate Printable(f: Field) {
    && Free(f.disposition, CRLF) && Free(f.name, CRLF) && Free(f.fileName, CRLF)
    && Free(f.contentType, CRLF) && Free(f.encoding, CRLF)
    && ';' !in f.disposition && ';' !in f.name && ';' !in f.fileName
    && Trimmed(f.disposition)
  }

  lemma Literals()
    ensures ':' !in "Content-Disposition" && ':' !in "Content-Type" && ':' !in "Content-Transfer-Encoding"
    ensures '=' !in " name" && '=' !in " filename"
    ensures ';' !in " name=\"" && ';' !in " filename=\""
    ensures Trimmed("Content-Disposition") && Trimmed("Content-Type") && Trimmed("Content-Transfer-Encoding")
    ensures Trimmed("name") && Trimmed("filename")
    ensures SameIgnoringCase("name", "name") && SameIgnoringCase("filename", "filename")
    ensures !SameIgnoringCase("filename", "name")
    ensures !SameIgnoringCase("Content-Type", "Content-Disposition")
    ensures !SameIgnoringCase("Content-Transfer-Encoding", "Content-Disposition")
    ensures !SameIgnoringCase("Content-Transfer-Encoding", "Content-Type")
  {
  }

  function KeyValue(key: string, v: string): string {
    " " + key + "=" + ("\"" + v + "\"")
  }

  lemma ParameterIs(key: string, v: string)
    ensures Parameter(key, v) == if v == "" then "" else ";" + KeyValue(key, v)
  {
  }

  lemma KeyValueHasNoSemicolon(key: string, v: string)
    requires ';' !in key && ';' !in v
    ensures ';' !in KeyValue(key, v)
  {
  }

  /** One parameter is split at its equals sign. */
  lemma KeyValueSplits(key: string, v: string)
    requires '=' !in key && Trimmed(key)
    ensures FindChar(KeyValue(key, v), '=') == |key| + 1
    ensures Trim(KeyValue(key, v)[..|key| + 1]) == key
    ensures Unquote(Trim(KeyValue(key, v)[|key| + 2..])) == v
  {
    var kv, q := KeyValue(key, v), "\"" + v + "\"";
    FindCharIs(" " + key, '=', q);
    assert kv == " " + key + ['='] + q;
    assert kv[..|key| + 1] == " " + key;
    assert kv[|key| + 2..] == q;
    TrimSpace(key);
    UnquoteQuoted(v);
  }

  lemma LastParameter(f: Field, key: string, v: string)
    requires '=' !in key && Trimmed(key) && ';' !in key && ';' !in v
    ensures ParseParameters(f, KeyValue(key, v)) == Parsed(ParseParameter(f, key, v))
  {
    var kv := KeyValue(key, v);
    KeyValueSplits(key, v);
    KeyValueHasNoSemicolon(key, v);
    FindCharNone(kv, ';');
    assert kv[..|kv|] == kv;
    assert |kv| > |key| + 1;
    hide KeyValue, Trim, Unquote, FindChar;
  }

  lemma FirstParameter(f: Field, key: string, v: string, more: string)
    requires '=' !in key && Trimmed(key) && ';' !in key && ';' !in v
    ensures ParseParameters(f, KeyValue(key, v) + ";" + more) == ParseParameters(ParseParameter(f, key, v), more)
  {
    var kv := KeyValue(key, v);
    var kvs := kv + ";" + more;
    KeyValueSplits(key, v);
    KeyValueHasNoSemicolon(key, v);
    FindCharIs(kv, ';', more);
    assert kvs[..|kv|] == kv && kvs[|kv| + 1..] == more;
    assert |kv| > |key| + 1;
    hide KeyValue, Trim, Unquote, FindChar;
  }

  // ----- the rows

  function Named(f: Field): Field {
    NO_FIELD.(disposition := f.disposition, name := f.name, fileName := f.fileName)
  }

  lemma AsNamed(f: Field, v: string)
    ensures ParseParameter(f, "name", v) == f.(name := v)
    ensures ParseParameter(f, "filename", v) == f.(fileName := v)
  {
    Literals();
    hide SameIgnoringCase;
  }

  lemma KeysAreKeys()
    ensures '=' !in "name" && '=' !in "filename" && ';' !in "name" && ';' !in "filename"
    ensures Trimmed("name") && Trimmed("filename")
  {
  }

  lemma AfterSemicolon(a: string)
    ensures ";" + a != "" && (";" + a)[0] == ';' && (";" + a)[1..] == a
  {
  }

  /** The parameters behind a disposition, without the semicolon before them. */
  lemma ParametersAreRead(f: Field)
    requires ';' !in f.name && ';' !in f.fileName
    ensures var ps := Parameter("name", f.name) + Parameter("filename", f.fileName);
            if f.name == "" && f.fileName == "" then ps == ""
            else ps != "" && ps[0] == ';' && ParseParameters(NO_FIELD.(disposition := f.disposition), ps[1..]) == Parsed(Named(f))
  {
    hide *;
    var g := NO_FIELD.(disposition := f.disposition);
    var kn, kf := KeyValue("name", f.name), KeyValue("filename", f.fileName);
    KeysAreKeys();
    ParameterIs("name", f.name);
    ParameterIs("filename", f.fileName);
    NamedIs(f);
    AsNamed(g, f.name);
    AsNamed(g, f.fileName);
    AsNamed(g.(name := f.name), f.fileName);
    if f.name != "" && f.fileName != "" {
      FirstParameter(g, "name", f.name, kf);
      LastParameter(g.(name := f.name), "filename", f.fileName);
      assert ";" + kn + (";" + kf) == ";" + (kn + ";" + kf);
      AfterSemicolon(kn + ";" + kf);
    } else if f.name != "" {
      LastParameter(g, "name", f.name);
      assert ";" + kn + "" == ";" + kn;
      AfterSemicolon(kn);
    } else if f.fileName != "" {
      LastParameter(g, "filename", f.fileName);
      assert "" + (";" + kf) == ";" + kf;
      AfterSemicolon(kf);
    }
  }

  lemma NamedIs(f: Field)
    ensures Named(f) == NO_FIELD.(disposition := f.disposition, name := f.name, fileName := f.fileName)
    ensures NO_FIELD.name == "" && NO_FIELD.fileName == ""
  {
  }

  /** A row is split at its first colon. */
  lemma RowSplits(title: string, rest: string)
    requires ':' !in title && Trimmed(title)
    ensures var row := title + ":" + rest;
            FindChar(row, ':') == |title| < |row| && Trim(row[..|title|]) == title && row[|title| + 1..] == rest
  {
    var row := title + ":" + rest;
    FindCharIs(title, ':', rest);
    assert row == title + [':'] + rest;
    assert row[..|title|] == title;
    TrimKeeps(title);
  }

  /** A disposition is split from its parameters at the first semicolon. */
  lemma DispositionSplits(d: string, ps: string)
    requires ';' !in d && Trimmed(d) && (ps != "" ==> ps[0] == ';')
    ensures var rest := " " + d + ps;
            FindChar(rest, ';') == |d| + 1 && Trim(rest[..|d| + 1]) == d
            && (ps == "" ==> |d| + 1 == |rest|) && (ps != "" ==> |d| + 2 <= |rest| && rest[|d| + 2..] == ps[1..])
  {
    var rest := " " + d + ps;
    assert rest[..|d| + 1] == " " + d;
    TrimSpace(d);
    if ps == "" {
      assert rest == " " + d;
      FindCharNone(rest, ';');
    } else {
      FindCharIs(" " + d, ';', ps[1..]);
      assert rest == " " + d + [';'] + ps[1..];
    }
  }

  lemma DispositionTitle()
    ensures var title := "Content-Disposition"; ':' !in title && Trimmed(title) && SameIgnoringCase(title, title)
  {
  }

  lemma DispositionIsRead(f: Field)
    requires Printable(f)
    ensures ParseRow(NO_FIELD, DispositionRow(f)) == Parsed(Named(f))
  {
    var ps := Parameter("name", f.name) + Parameter("filename", f.fileName);
    var rest := " " + f.disposition + ps;
    DispositionRowIs(f);
    hide Parameter, Trim, FindChar, ParseParameters, DispositionRow, SameIgnoringCase, Free;
    DispositionTitle();
    RowSplits("Content-Disposition", rest);
    ParametersAreRead(f);
    DispositionSplits(f.disposition, ps);
    NamedIs(f);
    assert f.name == "" && f.fileName == "" ==> NO_FIELD.(disposition := f.disposition) == Named(f);
  }

  lemma DispositionRowIs(f: Field)
    ensures DispositionRow(f) ==
      "Content-Disposition" + ":" + (" " + f.disposition + (Parameter("name", f.name) + Parameter("filename", f.fileName)))
  {
    hide Parameter;
  }

  /** A row that is carried as it is. */
  lemma TitledIsRead(f: Field, title: string, text: string)
    requires title == "Content-Type" || title == "Content-Transfer-Encoding"
    ensures ParseRow(f, title + ": " + text) ==
      Parsed(if title == "Content-Type" then f.(contentType := text) else f.(encoding := text))
  {
    Literals();
    var row := title + ": " + text;
    assert row == title + [':'] + (" " + text);
    FindCharIs(title, ':', " " + text);
    assert row[..|title|] == title && row[|title| + 1..] == " " + text;
    assert (" " + text)[1..] == text;
    TrimKeeps(title);
    assert SameIgnoringCase(title, title);
    hide Trim, FindChar;
  }

  // ----- the header

  function Titled(title: string, text: string): seq<string> {
    if text == "" then [] else [title + ": " + text]
  }

  /** The rows of a field's header. */
  function Rows(f: Field): seq<string> {
    [DispositionRow(f)] + Titled("Content-Type", f.contentType) + Titled("Content-Transfer-Encoding", f.encoding)
  }

  function Join(rows: seq<string>): string
    requires rows != []
  {
    if |rows| == 1 then rows[0] else rows[0] + CRLF + Join(rows[1..])
  }

  predicate IsRow(row: string) {
    row != "" && row[0] == 'C' && Free(row, CRLF)
  }

  predicate AreRows(rows: seq<string>) {
    rows != [] && forall i | 0 <= i < |rows| :: IsRow(rows[i])
  }

  lemma TitledIsRow(title: string, text: string)
    requires title == "Content-Type" || title == "Content-Transfer-Encoding"
    requires Free(text, CRLF)
    ensures IsRow(title + ": " + text)
  {
    var t := title + ": ";
    assert Free(t, CRLF) by {
      assert forall i | 0 <= i < |t| :: t[i] != '\r';
      NoCarriage(t);
    }
    FreeConcat(t, text);
  }

  lemma NoCarriage(s: string)
    requires forall i | 0 <= i < |s| :: s[i] != '\r'
    ensures Free(s, CRLF)
  {
    forall i | 0 <= i <= |s|
      ensures !At(s, CRLF, i)
    {
      if i + 2 <= |s| { assert s[i..i + 2][0] != '\r'; }
    }
  }

  lemma ParameterIsFree(key: string, v: string)
    requires key == "name" || key == "filename"
    requires Free(v, CRLF)
    ensures Free(Parameter(key, v), CRLF)
    ensures Parameter(key, v) != "" ==> Parameter(key, v)[0] == ';'
  {
    var a := "; " + key + "=\"";
    assert forall i | 0 <= i < |a| :: a[i] != '\r';
    NoCarriage(a);
    NoCarriage("\"");
    FreeConcat(a, v);
    FreeConcat(a + v, "\"");
  }

  lemma DispositionIsRow(f: Field)
    requires Printable(f)
    ensures IsRow(DispositionRow(f))
  {
    var t := "Content-Disposition: ";
    var a, b := Parameter("name", f.name), Parameter("filename", f.fileName);
    assert forall i | 0 <= i < |t| :: t[i] != '\r';
    NoCarriage(t);
    FreeConcat(t, f.disposition);
    ParameterIsFree("name", f.name);
    ParameterIsFree("filename", f.fileName);
    hide Parameter, Free;
    FreeConcat(t + f.disposition, a);
    FreeConcat(t + f.disposition + a, b);
  }

  lemma RowsAreRows(f: Field)
    requires Printable(f)
    ensures AreRows(Rows(f))
  {
    DispositionIsRow(f);
    TitledIsRow("Content-Type", f.contentType);
    TitledIsRow("Content-Transfer-Encoding", f.encoding);
    hide IsRow, DispositionRow, Free;
  }

  /** The rows are read one after the other. */
  lemma LastRow(f: Field, row: string)
    requires Free(row, CRLF)
    ensures ParseRows(f, row) == ParseRow(f, row)
  {
    FindNone(row, CRLF);
    hide ParseRow;
  }

  lemma FirstRow(f: Field, row: string, more: string, g: Field)
    requires Free(row, CRLF) && ParseRow(f, row) == Parsed(g)
    ensures ParseRows(f, row + CRLF + more) == ParseRows(g, more)
  {
    LineEnds(row, more);
    var s := row + CRLF + more;
    assert s[..|row|] == row && s[|row| + 2..] == more;
    hide ParseRow, Find;
  }

  lemma TitledRowsAreRead(g: Field, f: Field)
    requires Printable(f) && g.contentType == "" && g.encoding == ""
    ensures var rows := Titled("Content-Type", f.contentType) + Titled("Content-Transfer-Encoding", f.encoding);
            var h := g.(contentType := f.contentType, encoding := f.encoding);
            if rows == [] then h == g else ParseRows(g, Join(rows)) == Parsed(h)
  {
    var ct, en := "Content-Type: " + f.contentType, "Content-Transfer-Encoding: " + f.encoding;
    assert ct == "Content-Type" + ": " + f.contentType && en == "Content-Transfer-Encoding" + ": " + f.encoding;
    TitledIsRead(g, "Content-Type", f.contentType);
    TitledIsRow("Content-Type", f.contentType);
    TitledIsRow("Content-Transfer-Encoding", f.encoding);
    hide ParseRow, Free, ParseRows;
    if f.encoding == "" {
      LastRow(g, ct);
    } else if f.contentType == "" {
      TitledIsRead(g, "Content-Transfer-Encoding", f.encoding);
      LastRow(g, en);
    } else {
      var h := g.(contentType := f.contentType);
      TitledIsRead(h, "Content-Transfer-Encoding", f.encoding);
      FirstRow(g, ct, en, h);
      LastRow(h, en);
      assert [ct, en][1..] == [en];
    }
  }

  /** The whole header is read. */
  lemma HeaderIsRead(f: Field)
    requires Printable(f)
    ensures ParseRows(NO_FIELD, Join(Rows(f))) == Parsed(f.(value := ""))
  {
    var rows := Titled("Content-Type", f.contentType) + Titled("Content-Transfer-Encoding", f.encoding);
    var row := DispositionRow(f);
    assert Rows(f) == [row] + rows && Rows(f)[1..] == rows;
    DispositionIsRead(f);
    DispositionIsRow(f);
    TitledRowsAreRead(Named(f), f);
    hide ParseRow, Free, ParseRows, DispositionRow, Titled;
    if rows == [] {
      LastRow(NO_FIELD, row);
    } else {
      FirstRow(NO_FIELD, row, Join(rows), Named(f));
    }
  }

  /** The header ends at the first empty line. */
  lemma {:induction false} HeaderEnds(rows: seq<string>, tail: string)
    requires AreRows(rows)
    ensures Find(Join(rows) + (CRLF + CRLF) + tail, CRLF + CRLF, 0) == |Join(rows)|
    decreases |rows|
  {
    var s := Join(rows) + (CRLF + CRLF) + tail;
    var k := |Join(rows)|;
    assert s[k..k + 4] == CRLF + CRLF;
    forall j | 0 <= j < k
      ensures !At(s, CRLF + CRLF, j)
    {
      NoEmptyLine(rows, tail, j);
    }
    FindIs(s, CRLF + CRLF, k);
  }

  /** Where an empty line ends, a line ends, and right behind it another. */
  lemma TwoLineEnds(s: string, j: nat)
    ensures At(s, CRLF + CRLF, j) ==> At(s, CRLF, j) && At(s, CRLF, j + 2)
  {
    if At(s, CRLF + CRLF, j) {
      assert s[j..j + 2] == s[j..j + 4][..2];
      assert s[j + 2..j + 4] == s[j..j + 4][2..];
    }
  }

  lemma AtShifted(a: string, b: string, pat: string, j: nat)
    requires |a| <= j
    ensures At(a + b, pat, j) <==> At(b, pat, j - |a|)
  {
    if j + |pat| <= |a + b| {
      assert (a + b)[j..j + |pat|] == b[j - |a|..j - |a| + |pat|];
    }
  }

  lemma NotAt(s: string, pat: string, j: nat)
    requires pat != "" && j < |s| && s[j] != pat[0]
    ensures !At(s, pat, j)
  {
    if j + |pat| <= |s| { assert s[j..j + |pat|][0] == s[j]; }
  }

  lemma {:induction false} NoEmptyLine(rows: seq<string>, tail: string, j: nat)
    requires AreRows(rows) && j < |Join(rows)|
    ensures !At(Join(rows) + (CRLF + CRLF) + tail, CRLF + CRLF, j)
    decreases |rows|
  {
    var row := rows[0];
    assert IsRow(row);
    var s := Join(rows) + (CRLF + CRLF) + tail;
    var more := if |rows| == 1 then CRLF + tail else Join(rows[1..]) + (CRLF + CRLF) + tail;
    assert s == row + CRLF + more;
    LineEnds(row, more);
    TwoLineEnds(s, j);
    if j >= |row| {
      var rest := rows[1..];
      assert IsRow(rows[1]);
      BeginsWithC(rest);
      if j == |row| {
        NotAt(s, CRLF, j + 2);
      } else if j == |row| + 1 {
        NotAt(s, CRLF, j);
      } else {
        NoEmptyLine(rest, tail, j - |row| - 2);
        AtShifted(row + CRLF, more, CRLF + CRLF, j);
      }
    }
  }

  lemma BeginsWithC(rows: seq<string>)
    requires AreRows(rows)
    ensures Join(rows) != "" && Join(rows)[0] == 'C'
  {
    assert IsRow(rows[0]);
  }

  // ----- the field

  /** The rows, each with its line end. */
  function Lines(rows: seq<string>): string {
    if rows == [] then "" else rows[0] + CRLF + Lines(rows[1..])
  }

  lemma {:induction false} JoinedLines(rows: seq<string>)
    requires rows != []
    ensures Join(rows) + CRLF == Lines(rows)
    decreases |rows|
  {
    if |rows| == 1 {
      assert rows[0] + CRLF + "" == rows[0] + CRLF;
    } else {
      JoinedLines(rows[1..]);
      assert rows[0] + CRLF + Join(rows[1..]) + CRLF == rows[0] + CRLF + (Join(rows[1..]) + CRLF);
    }
  }

  lemma {:induction false} LinesConcat(a: seq<string>, b: seq<string>)
    ensures Lines(a + b) == Lines(a) + Lines(b)
    decreases |a|
  {
    if a == [] {
      assert a + b == b;
      assert "" + Lines(b) == Lines(b);
    } else {
      LinesConcat(a[1..], b);
      assert (a + b)[1..] == a[1..] + b;
      assert a[0] + CRLF + (Lines(a[1..]) + Lines(b)) == a[0] + CRLF + Lines(a[1..]) + Lines(b);
    }
  }

  lemma TitledLine(title: string, text: string)
    ensures Lines(Titled(title, text)) == Row(title, text)
  {
    if text != "" {
      var row := title + ": " + text;
      assert [row][1..] == [];
      assert row + CRLF + "" == row + CRLF;
    }
  }

  lemma PartTextIs(f: Field)
    ensures PartText(f) == CRLF + (Join(Rows(f)) + (CRLF + CRLF) + f.value) + CRLF
  {
    hide *;
    var d := DispositionRow(f);
    var ct, en := Titled("Content-Type", f.contentType), Titled("Content-Transfer-Encoding", f.encoding);
    TitledLine("Content-Type", f.contentType);
    TitledLine("Content-Transfer-Encoding", f.encoding);
    OneLine(d);
    LinesConcat([d], ct);
    LinesConcat([d] + ct, en);
    RowsAre(f);
    JoinedLines(Rows(f));
    Assemble(d, Lines(ct), Lines(en), Join(Rows(f)), f.value);
    PartTextAssembled(f);
  }

  lemma OneLine(d: string)
    ensures Lines([d]) == d + CRLF
  {
    assert [d][1..] == [];
    assert d + CRLF + "" == d + CRLF;
  }

  lemma RowsAre(f: Field)
    ensures Rows(f) == [DispositionRow(f)] + Titled("Content-Type", f.contentType) + Titled("Content-Transfer-Encoding", f.encoding)
  {
  }

  lemma PartTextAssembled(f: Field)
    ensures PartText(f) == CRLF + DispositionRow(f) + CRLF + Row("Content-Type", f.contentType) +
      Row("Content-Transfer-Encoding", f.encoding) + CRLF + f.value + CRLF
  {
  }

  lemma Assemble(d: string, a: string, b: string, j: string, v: string)
    requires j + CRLF == d + CRLF + a + b
    ensures CRLF + d + CRLF + a + b + CRLF + v + CRLF == CRLF + (j + (CRLF + CRLF) + v) + CRLF
  {
    assert CRLF + d + CRLF + a + b == CRLF + (d + CRLF + a + b);
    assert j + (CRLF + CRLF) + v == j + CRLF + CRLF + v;
    assert CRLF + (j + CRLF) + CRLF + v + CRLF == CRLF + (j + CRLF + CRLF + v) + CRLF;
  }

  /** A field is read back from its text. */
  lemma FieldIsRead(f: Field)
    requires Printable(f)
    ensures ParseField(PartText(f)) == Parsed(f)
  {
    hide Printable, Rows, Join, ParseRows, Find, PartText, At;
    PartTextIs(f);
    RowsAreRows(f);
    HeaderEnds(Rows(f), f.value);
    HeaderIsRead(f);
    HeaderIsLong(f);
    var h := Join(Rows(f));
    var inner := h + (CRLF + CRLF) + f.value;
    var content := CRLF + inner + CRLF;
    assert content[..2] == CRLF && content[|content| - 2..] == CRLF && content[2..|content| - 2] == inner;
    assert inner[..|h|] == h && inner[|h| + 4..] == f.value;
  }

  lemma HeaderIsLong(f: Field)
    ensures |Join(Rows(f))| >= 8
  {
  }

  // ----- the form

  /** A boundary's first occurrence from the start of the part is the one that ends it. */
  predicate Bounded(f: Field, boundary: string) {
    Find(PartText(f) + ("--" + boundary), "--" + boundary, 0) == |PartText(f)|
  }

  /** What a form's text can carry. */
  predicate Carried(fs: seq<Field>, boundary: string) {
    forall i | 0 <= i < |fs| :: Printable(fs[i]) && Bounded(fs[i], boundary)
  }

  lemma FindInFront(s: string, t: string, pat: string)
    requires Find(s + pat, pat, 0) == |s|
    ensures Find(s + (pat + t), pat, 0) == |s|
  {
    var u := s + (pat + t);
    assert u == s + pat + t;
    assert u[|s|..|s| + |pat|] == pat;
    forall j | 0 <= j < |s|
      ensures !At(u, pat, j)
    {
      assert !At(s + pat, pat, j);
      assert u[j..j + |pat|] == (s + pat)[j..j + |pat|];
    }
    FindIs(u, pat, |s|);
  }

  /** The names are in order. */
  predicate InOrder(fs: seq<Field>) {
    forall i, j | 0 <= i < j < |fs| :: !Less(fs[j].name, fs[i].name)
  }

  lemma {:induction false} LastInOrder(fs: seq<Field>, f: Field)
    requires InOrder(fs + [f])
    ensures Insert(fs, f) == fs + [f]
    decreases |fs|
  {
    assert UpperBound(fs, f.name) == |fs| by {
      AllBefore(fs, f);
    }
    assert fs[..|fs|] == fs && fs[|fs|..] == [];
  }

  lemma {:induction false} AllBefore(fs: seq<Field>, f: Field)
    requires InOrder(fs + [f])
    ensures UpperBound(fs, f.name) == |fs|
    decreases |fs|
  {
    if fs != [] {
      var all := fs + [f];
      assert all[0] == fs[0] && all[|fs|] == f;
      assert forall i | 0 <= i < |fs| :: (fs[1..] + [f])[i] == all[i + 1];
      AllBefore(fs[1..], f);
    }
  }

  lemma FirstCarried(fs: seq<Field>, boundary: string)
    requires fs != [] && Carried(fs, boundary)
    ensures Printable(fs[0]) && Carried(fs[1..], boundary)
    ensures Find(PartText(fs[0]) + ("--" + boundary), "--" + boundary, 0) == |PartText(fs[0])|
  {
    assert Printable(fs[0]) && Bounded(fs[0], boundary);
  }

  lemma PartStep(done: seq<Field>, f: Field, next: string, bound: string)
    requires bound != "" && Find(PartText(f) + next, bound, 0) == |PartText(f)|
    requires Printable(f)
    ensures Execute(done, bound + (PartText(f) + next), bound) == Execute(Insert(done, f), next, bound)
  {
    FieldIsRead(f);
    PartBegins(f);
    hide PartText, ParseField, Find, Insert, Printable;
    var rest := PartText(f) + next;
    var body := bound + rest;
    assert body[0..|bound|] == bound && body[|bound|..] == rest;
    assert rest[0] == '\r';
    NotAt(rest, "--", 0);
    assert rest[..|PartText(f)|] == PartText(f) && rest[|PartText(f)|..] == next;
  }

  lemma EndStep(done: seq<Field>, boundary: string)
    ensures Execute(done, FormText([], boundary), "--" + boundary) == Form(done)
  {
    var bound := "--" + boundary;
    var body := FormText([], boundary);
    assert body == bound + "--" + CRLF;
    assert body[0..|bound|] == bound;
    assert body[|bound|..][0..2] == "--";
  }

  /** Reading what is left of a form's text. */
  lemma {:induction false} PartsAreRead(done: seq<Field>, fs: seq<Field>, boundary: string)
    requires Carried(fs, boundary) && InOrder(done + fs)
    ensures Execute(done, FormText(fs, boundary), "--" + boundary) == Form(done + fs)
    decreases |fs|
  {
    if fs == [] {
      EndStep(done, boundary);
      assert done + fs == done;
    } else {
      hide *;
      var bound, f, next := "--" + boundary, fs[0], FormText(fs[1..], boundary);
      FirstCarried(fs, boundary);
      OneMore(done, fs);
      FormSplits(fs, boundary);
      FormBegins(fs[1..], boundary);
      assert next == bound + next[|bound|..];
      FindInFront(PartText(f), next[|bound|..], bound);
      PartStep(done, f, next, bound);
      PartsAreRead(done + [f], fs[1..], boundary);
    }
  }

  lemma OneMore(done: seq<Field>, fs: seq<Field>)
    requires fs != [] && InOrder(done + fs)
    ensures Insert(done, fs[0]) == done + [fs[0]]
    ensures done + [fs[0]] + fs[1..] == done + fs
  {
    var all := done + fs;
    assert done + [fs[0]] + fs[1..] == all;
    assert forall i | 0 <= i <= |done| :: (done + [fs[0]])[i] == all[i];
    LastInOrder(done, fs[0]);
  }

  lemma FormBegins(fs: seq<Field>, boundary: string)
    ensures |"--" + boundary| <= |FormText(fs, boundary)|
    ensures FormText(fs, boundary)[..|"--" + boundary|] == "--" + boundary
  {
  }

  lemma FormSplits(fs: seq<Field>, boundary: string)
    requires fs != []
    ensures FormText(fs, boundary) == "--" + boundary + (PartText(fs[0]) + FormText(fs[1..], boundary))
  {
    hide PartText;
  }

  lemma PartBegins(f: Field)
    ensures PartText(f) != "" && PartText(f)[0] == '\r'
  {
  }

  /** Reading the text of a form gives its fields, in their order. */
  lemma FormIsRead(fs: seq<Field>, boundary: string)
    requires InOrder(fs) && Carried(fs, boundary)
    ensures ParseForm(FormText(fs, boundary), boundary) == Form(fs)
  {
    assert [] + fs == fs;
    PartsAreRead([], fs, boundary);
  }

  /** For a boundary on one line it is enough that no part contains the boundary line. */
  lemma BoundedIff(f: Field, boundary: string)
    requires '\n' !in boundary
    ensures Bounded(f, boundary) <==> Free(PartText(f), "--" + boundary)
  {
    var part, pat := PartText(f), "--" + boundary;
    PartEnds(f);
    hide PartText;
    var s := part + pat;
    assert s[|part|..|part| + |pat|] == pat;
    forall j | 0 <= j < |part|
      ensures At(s, pat, j) <==> At(part, pat, j)
    {
      if j + |pat| <= |part| {
        assert s[j..j + |pat|] == part[j..j + |pat|];
      } else {
        Straddles(part, boundary, j);
      }
    }
    if Free(part, pat) {
      FindIs(s, pat, |part|);
    }
  }

  lemma PartEnds(f: Field)
    ensures PartText(f) != "" && PartText(f)[|PartText(f)| - 1] == '\n'
  {
  }

  /** A boundary cannot begin in a part and end behind it: the part's line end would be in it. */
  lemma Straddles(part: string, boundary: string, j: nat)
    requires part != "" && part[|part| - 1] == '\n' && '\n' !in boundary
    requires j < |part| < j + |"--" + boundary|
    ensures !At(part + ("--" + boundary), "--" + boundary, j)
  {
    var pat := "--" + boundary;
    var s := part + pat;
    assert s[j..j + |pat|][|part| - 1 - j] == '\n';
    assert '\n' !in pat;
    assert pat[|part| - 1 - j] in pat;
  }
}
