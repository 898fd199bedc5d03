/**
 The text of multipart forms against what is not in the printer: the rows as they are
 written, titles in any case and with white space, what a part is refused for, and the
 order of names.
 */
module MultipartText {
  import opened Multipart

  // ----- what is written

  function Lines(rows: seq<string>): string {
    if rows == [] then "" else rows[0] + "\r\n" + Lines(rows[1..])
  }

  /** The rows of a part: what is not set is not written. */
  function HeaderRows(f: Field): seq<string> {
    ["Content-Disposition: " + f.disposition
     + (if f.name != "" then "; name=\"" + f.name + "\"" else "")
     + (if f.fileName != "" then "; filename=\"" + f.fileName + "\"" else "")]
    + (if f.contentType != "" then ["Content-Type: " + f.contentType] else [])
    + (if f.encoding != "" then ["Content-Transfer-Encoding: " + f.encoding] else [])
  }

  lemma LinesOfTwo(a: seq<string>, b: seq<string>)
    ensures Lines(a + b) == Lines(a) + Lines(b)
  {
    if a == [] {
      assert a + b == b;
    } else {
      assert (a + b)[1..] == a[1..] + b;
      LinesOfTwo(a[1..], b);
      assert a[0] + "\r\n" + (Lines(a[1..]) + Lines(b)) == a[0] + "\r\n" + Lines(a[1..]) + Lines(b);
    }
  }

  lemma LinesOfOne(row: string)
    ensures Lines([row]) == row + "\r\n"
  {
    assert Lines([row]) == row + "\r\n" + "";
  }

  lemma DispositionIs(f: Field)
    ensures DispositionRow(f) == HeaderRows(f)[0]
  {
    Associate("; ", "name", "=\"");
    assert "; " + "name" + "=\"" == "; name=\"";
    assert "; " + "filename" + "=\"" == "; filename=\"";
  }

  lemma Associate(a: string, b: string, c: string)
    ensures (a + b) + c == a + (b + c)
  {
  }

  lemma RowIs(title: string, text: string)
    ensures Row(title, text) == Lines(if text != "" then [title + ": " + text] else [])
  {
    if text != "" {
      LinesOfOne(title + ": " + text);
    }
  }

  lemma RowTitles(text: string)
    ensures "Content-Type" + ": " + text == "Content-Type: " + text
    ensures "Content-Transfer-Encoding" + ": " + text == "Content-Transfer-Encoding: " + text
  {
    assert "Content-Type" + ": " == "Content-Type: ";
    assert "Content-Transfer-Encoding" + ": " == "Content-Transfer-Encoding: ";
  }

  lemma RowsJoined(d: string, a: seq<string>, b: seq<string>)
    ensures Lines([d] + a + b) == d + "\r\n" + Lines(a) + Lines(b)
  {
    hide Lines;
    LinesOfOne(d);
    LinesOfTwo([d] + a, b);
    LinesOfTwo([d], a);
  }

  lemma InFront(p: string, d: string, n: string, a: string, b: string)
    ensures p + (d + n + a + b) == p + d + n + a + b
  {
  }

  lemma HeaderLines(f: Field)
    ensures Lines(HeaderRows(f)) ==
      DispositionRow(f) + "\r\n" + Row("Content-Type", f.contentType) + Row("Content-Transfer-Encoding", f.encoding)
  {
    var a := if f.contentType != "" then ["Content-Type: " + f.contentType] else [];
    var b := if f.encoding != "" then ["Content-Transfer-Encoding: " + f.encoding] else [];
    DispositionIs(f);
    RowTitles(f.contentType);
    RowTitles(f.encoding);
    RowIs("Content-Type", f.contentType);
    RowIs("Content-Transfer-Encoding", f.encoding);
    RowsJoined(DispositionRow(f), a, b);
    assert HeaderRows(f) == [HeaderRows(f)[0]] + a + b;
    hide Lines, HeaderRows, DispositionRow, Row;
  }

  /** A part is its rows, an empty line and its value. */
  lemma PartIsWritten(f: Field)
    ensures PartText(f) == "\r\n" + Lines(HeaderRows(f)) + "\r\n" + f.value + "\r\n"
  {
    HeaderLines(f);
    assert CRLF == "\r\n";
    hide Lines, HeaderRows, DispositionRow, Row;
    InFront("\r\n", DispositionRow(f), "\r\n", Row("Content-Type", f.contentType),
            Row("Content-Transfer-Encoding", f.encoding));
  }

  /** A form is its parts, each behind its boundary line, and the closing line. */
  lemma FormIsWritten(fs: seq<Field>, boundary: string)
    ensures fs == [] ==> FormText(fs, boundary) == "--" + boundary + "--\r\n"
    ensures fs != [] ==> FormText(fs, boundary) == "--" + boundary + PartText(fs[0]) + FormText(fs[1..], boundary)
  {
    hide PartText;
    assert "--" + CRLF == "--\r\n";
    if fs == [] {
      Associate("--" + boundary, "--", CRLF);
    } else {
      Associate("--" + boundary + PartText(fs[0]), PartTexts(fs[1..], boundary), "--" + boundary + "--" + CRLF);
    }
  }

  // ----- titles in any case

  /** The same text but for the case of letters. */
  predicate AnyCase(a: string, b: string) {
    |a| == |b| && forall i | 0 <= i < |a| ::
      a[i] == b[i] || ('a' <= a[i] <= 'z' && a[i] as int == b[i] as int + 32) || ('a' <= b[i] <= 'z' && b[i] as int == a[i] as int + 32)
  }

  lemma CaseIsIgnored(a: string, b: string)
    ensures SameIgnoringCase(a, b) <==> AnyCase(a, b)
  {
    if |a| == |b| {
      forall i | 0 <= i < |a|
        ensures Lower(a[i]) == Lower(b[i]) <==>
          a[i] == b[i] || ('a' <= a[i] <= 'z' && a[i] as int == b[i] as int + 32) || ('a' <= b[i] <= 'z' && b[i] as int == a[i] as int + 32)
      {
      }
    }
  }

  /** Blanks, tabs and line ends. */
  predicate Blank(s: string) {
    forall i | 0 <= i < |s| :: s[i] in {' ', '\t', '\n', 11 as char, 12 as char, '\r'}
  }

  lemma {:induction false} TrimLeftBlank(a: string, s: string)
    requires Blank(a) && (s != "" ==> !Blank([s[0]]))
    ensures TrimLeft(a + s) == s
    decreases |a|
  {
    if a == "" {
      assert a + s == s;
      assert s != "" ==> s[0] == [s[0]][0];
    } else {
      assert (a + s)[1..] == a[1..] + s;
      TrimLeftBlank(a[1..], s);
    }
  }

  lemma {:induction false} TrimRightBlank(s: string, b: string)
    requires Blank(b) && (s != "" ==> !Blank([s[|s| - 1]]))
    ensures TrimRight(s + b) == s
    decreases |b|
  {
    if b == "" {
      assert s + b == s;
      assert s != "" ==> s[|s| - 1] == [s[|s| - 1]][0];
    } else {
      var n := |b| - 1;
      assert (s + b)[..|s + b| - 1] == s + b[..n];
      TrimRightBlank(s, b[..n]);
    }
  }

  /** White space around a title or a value is not part of it. */
  lemma TrimIs(a: string, s: string, b: string)
    requires Blank(a) && Blank(b) && s != "" && !Blank([s[0]]) && !Blank([s[|s| - 1]])
    ensures Trim(a + s + b) == s
  {
    assert a + s + b == a + (s + b);
    assert (s + b)[0] == s[0];
    TrimLeftBlank(a, s + b);
    TrimRightBlank(s, b);
  }

  predicate Known(title: string) {
    AnyCase(title, "Content-Type") || AnyCase(title, "Content-Transfer-Encoding") || AnyCase(title, "Content-Disposition")
  }

  /** The rows known: the title in any case, with white space around it. */
  lemma RowIsRead(f: Field, a: string, title: string, b: string, rest: string)
    requires Blank(a) && Blank(b) && title != "" && !Blank([title[0]]) && !Blank([title[|title| - 1]])
    requires ':' !in title
    ensures var r := ParseRow(f, a + title + b + ":" + rest);
            && (AnyCase(title, "Content-Type") ==>
                  r == if rest == "" then Threw else Parsed(f.(contentType := rest[1..])))
            && (AnyCase(title, "Content-Transfer-Encoding") ==>
                  r == if rest == "" then Threw else Parsed(f.(encoding := rest[1..])))
            && (AnyCase(title, "Content-Disposition") ==>
                  var end := FindChar(rest, ';');
                  var g := f.(disposition := Trim(rest[..end]));
                  r == if end == |rest| then Parsed(g) else ParseParameters(g, rest[end + 1..]))
            && (!Known(title) ==> r == Parsed(f))
  {
    var front := a + title + b;
    var row := front + ":" + rest;
    NoColon(a, title, b);
    ColonAt(front, rest);
    TrimIs(a, title, b);
    CaseIsIgnored(title, "Content-Type");
    CaseIsIgnored(title, "Content-Transfer-Encoding");
    CaseIsIgnored(title, "Content-Disposition");
    TitlesDiffer(title);
    hide FindChar, Trim, SameIgnoringCase, AnyCase, ParseParameters;
    assert row[..|front|] == front && row[|front| + 1..] == rest;
  }

  lemma TitlesDiffer(title: string)
    ensures AnyCase(title, "Content-Type") ==> !AnyCase(title, "Content-Disposition") && !AnyCase(title, "Content-Transfer-Encoding")
    ensures AnyCase(title, "Content-Transfer-Encoding") ==> !AnyCase(title, "Content-Disposition")
  {
  }

  lemma NoColon(a: string, title: string, b: string)
    requires Blank(a) && Blank(b) && ':' !in title
    ensures ':' !in a + title + b
  {
  }

  lemma ColonAt(front: string, rest: string)
    requires ':' !in front
    ensures FindChar(front + ":" + rest, ':') == |front|
  {
    var row := front + ":" + rest;
    if front == "" {
      assert row[0] == ':';
    } else {
      assert row[1..] == front[1..] + ":" + rest && row[0] == front[0] != ':';
      ColonAt(front[1..], rest);
    }
  }

  /** A row without a colon is refused. */
  lemma RowWithoutColon(f: Field, row: string)
    ensures ':' !in row ==> ParseRow(f, row) == Malformed
  {
    if ':' !in row {
      var k := FindChar(row, ':');
      assert k == |row|;
    }
  }

  /** The parameters known: the key in any case; the value without the quotation marks around it. */
  lemma ParameterIsRead(f: Field, key: string, v: string)
    ensures AnyCase(key, "name") ==> ParseParameter(f, key, v) == f.(name := v)
    ensures AnyCase(key, "filename") ==> ParseParameter(f, key, v) == f.(fileName := v)
    ensures !AnyCase(key, "name") && !AnyCase(key, "filename") ==> ParseParameter(f, key, v) == f
  {
    CaseIsIgnored(key, "name");
    CaseIsIgnored(key, "filename");
  }

  lemma UnquoteIs(v: string)
    requires v != "" ==> v[0] != '"' && v[|v| - 1] != '"'
    ensures Unquote("\"" + v + "\"") == v && Unquote(v) == v
    ensures Unquote("\"" + v) == v && Unquote(v + "\"") == v
  {
    var q := "\"" + v + "\"";
    assert q[1..] == v + "\"" && (v + "\"")[..|v|] == v;
    assert ("\"" + v)[1..] == v;
  }

  /** A parameter without an equals sign is refused. */
  lemma ParameterWithoutEquals(f: Field, kvs: string)
    ensures '=' !in kvs[..FindChar(kvs, ';')] ==> ParseParameters(f, kvs) == Malformed
  {
    var kv := kvs[..FindChar(kvs, ';')];
    if '=' !in kv {
      var k := FindChar(kv, '=');
      assert k == |kv|;
    }
  }

  // ----- what a part needs

  ghost predicate Contains(s: string, pat: string) {
    exists i | 0 <= i <= |s| :: At(s, pat, i)
  }

  /** A part is refused if it is shorter than two empty lines, does not stand between line ends, or has no empty line in it. */
  lemma PartNeeds(content: string)
    ensures |content| < 8 ==> ParseField(content) == Malformed
    ensures |content| >= 8 && (content[..2] != "\r\n" || content[|content| - 2..] != "\r\n") ==> ParseField(content) == Malformed
    ensures |content| >= 8 && !Contains(content[2..|content| - 2], "\r\n\r\n") ==> ParseField(content) == Malformed
  {
    if |content| >= 8 {
      var inner := content[2..|content| - 2];
      assert CRLF + CRLF == "\r\n\r\n";
      var k := Find(inner, "\r\n\r\n", 0);
      assert k != -1 ==> At(inner, "\r\n\r\n", k);
    }
  }

  // ----- the order of names

  /** `a` and `b` agree up to `k`, where `a` ends or has the smaller character. */
  predicate FirstDifference(a: string, b: string, k: nat) {
    k <= |a| && k < |b| && a[..k] == b[..k] && (k == |a| || a[k] < b[k])
  }

  lemma FirstDifferenceTail(a: string, b: string, k: nat)
    requires a != "" && b != "" && a[0] == b[0]
    ensures FirstDifference(a, b, k + 1) <==> FirstDifference(a[1..], b[1..], k)
  {
    if k + 1 <= |a| && k + 1 < |b| {
      assert a[..k + 1] == [a[0]] + a[1..][..k] && b[..k + 1] == [b[0]] + b[1..][..k];
      assert a[..k + 1][1..] == a[1..][..k] && b[..k + 1][1..] == b[1..][..k];
    }
  }

  lemma AgreeAtFirst(a: string, b: string, k: nat)
    requires FirstDifference(a, b, k)
    ensures k > 0 ==> a != "" && a[0] == b[0]
  {
    if k > 0 {
      assert a[..k][0] == b[..k][0];
    }
  }

  /** Names are in dictionary order. */
  lemma {:induction false} LessIsDictionaryOrder(a: string, b: string)
    ensures Less(a, b) <==> exists k: nat :: FirstDifference(a, b, k)
    decreases |a|
  {
    if a != "" && b != "" && a[0] == b[0] {
      LessIsDictionaryOrder(a[1..], b[1..]);
      if Less(a, b) {
        var k: nat :| FirstDifference(a[1..], b[1..], k);
        FirstDifferenceTail(a, b, k);
      }
      if k: nat :| FirstDifference(a, b, k) {
        assert k > 0;
        FirstDifferenceTail(a, b, k - 1);
      }
    } else if b != "" {
      assert FirstDifference(a, b, 0) <==> a == "" || a[0] < b[0];
      forall k: nat | FirstDifference(a, b, k)
        ensures k == 0
      {
        AgreeAtFirst(a, b, k);
      }
    }
  }
}
