/**
 What a form's text can carry, exactly: nothing else can ever be read out of a text.
 */
module MultipartExact {
  import opened Multipart
  import opened MultipartRoundTrip
  import opened MultipartFields

  // ----- parts of a text

  /** `t` is a stretch of `s`. */
  ghost predicate Within(t: string, s: string) {
    exists i, j | 0 <= i <= j <= |s| :: t == s[i..j]
  }

  lemma StretchIsWithin(s: string, i: nat, j: nat)
    requires i <= j <= |s|
    ensures Within(s[i..j], s)
  {
  }

  lemma StretchOfStretch(s: string, i: nat, j: nat, k: nat, l: nat)
    requires i <= j <= |s| && k <= l <= j - i
    ensures s[i..j][k..l] == s[i + k..i + l]
  {
    var a, b := s[i..j][k..l], s[i + k..i + l];
    assert |a| == |b|;
    forall x | 0 <= x < |a|
      ensures a[x] == b[x]
    {
      assert a[x] == s[i..j][k + x];
    }
  }

  lemma WithinWithin(r: string, t: string, s: string)
    requires Within(r, t) && Within(t, s)
    ensures Within(r, s)
  {
    var i, j :| 0 <= i <= j <= |s| && t == s[i..j];
    var k, l :| 0 <= k <= l <= |t| && r == t[k..l];
    StretchOfStretch(s, i, j, k, l);
  }

  lemma WithinFree(t: string, s: string)
    requires Within(t, s) && Free(s, CRLF)
    ensures Free(t, CRLF)
  {
    var i, j :| 0 <= i <= j <= |s| && t == s[i..j];
    forall k | 0 <= k <= |t|
      ensures !At(t, CRLF, k)
    {
      assert !At(s, CRLF, i + k);
      if k + 2 <= |t| {
        StretchOfStretch(s, i, j, k, k + 2);
      }
    }
  }

  lemma WithinLacks(t: string, s: string, c: char)
    requires Within(t, s) && c !in s
    ensures c !in t
  {
  }

  lemma {:induction false} TrimLeftWithin(s: string)
    ensures Within(TrimLeft(s), s)
    ensures TrimLeft(s) != "" ==> !IsSpace(TrimLeft(s)[0])
  {
    if s != "" && IsSpace(s[0]) {
      TrimLeftWithin(s[1..]);
      StretchIsWithin(s, 1, |s|);
      WithinWithin(TrimLeft(s), s[1..], s);
    } else {
      assert s[0..|s|] == s;
    }
  }

  lemma {:induction false} TrimRightWithin(s: string)
    requires s != "" ==> !IsSpace(s[0])
    ensures Within(TrimRight(s), s) && Trimmed(TrimRight(s))
  {
    if s != "" && IsSpace(s[|s| - 1]) {
      TrimRightWithin(s[..|s| - 1]);
      StretchIsWithin(s, 0, |s| - 1);
      WithinWithin(TrimRight(s), s[..|s| - 1], s);
    } else {
      assert s[0..|s|] == s;
    }
  }

  lemma TrimWithin(s: string)
    ensures Within(Trim(s), s) && Trimmed(Trim(s))
  {
    TrimLeftWithin(s);
    TrimRightWithin(TrimLeft(s));
    WithinWithin(Trim(s), TrimLeft(s), s);
  }

  lemma UnquoteWithin(s: string)
    ensures Within(Unquote(s), s)
  {
    var i := if s != "" && s[0] == '"' then 1 else 0;
    assert s[i..|s|] == s[i..];
    var j := if i < |s| && s[|s| - 1] == '"' then |s| - 1 else |s|;
    assert Unquote(s) == s[i..j];
  }

  // ----- what is read is printable

  lemma {:induction false} ParametersArePrintable(f: Field, kvs: string)
    requires Printable(f) && Free(kvs, CRLF)
    ensures ParseParameters(f, kvs).Parsed? ==> Printable(ParseParameters(f, kvs).field)
    decreases |kvs|
  {
    hide Within, Trim, Unquote, FindChar, SameIgnoringCase, Free;
    var end := FindChar(kvs, ';');
    var kv := kvs[..end];
    var eq := FindChar(kv, '=');
    if eq < |kv| {
      var v := kv[eq + 1..];
      StretchIsWithin(kvs, eq + 1, end);
      assert v == kvs[eq + 1..end];
      StretchIsWithin(kv, eq + 1, end);
      assert v == kv[eq + 1..end];
      TrimWithin(v);
      UnquoteWithin(Trim(v));
      WithinWithin(Unquote(Trim(v)), Trim(v), v);
      WithinWithin(Unquote(Trim(v)), v, kvs);
      WithinWithin(Unquote(Trim(v)), v, kv);
      WithinFree(Unquote(Trim(v)), kvs);
      WithinLacks(Unquote(Trim(v)), kv, ';');
      var g := ParseParameter(f, Trim(kv[..eq]), Unquote(Trim(v)));
      if end < |kvs| {
        StretchIsWithin(kvs, end + 1, |kvs|);
        assert kvs[end + 1..] == kvs[end + 1..|kvs|];
        WithinFree(kvs[end + 1..], kvs);
        ParametersArePrintable(g, kvs[end + 1..]);
      }
    }
  }

  /** The disposition is a trimmed stretch of the row without semicolons. */
  lemma DispositionIsPrintable(f: Field, rest: string)
    requires Printable(f) && Free(rest, CRLF)
    ensures Printable(f.(disposition := Trim(rest[..FindChar(rest, ';')])))
  {
    var end := FindChar(rest, ';');
    hide Within, Trim, FindChar, Free, Trimmed;
    StretchIsWithin(rest, 0, end);
    assert rest[..end] == rest[0..end];
    TrimWithin(rest[..end]);
    WithinLacks(Trim(rest[..end]), rest[..end], ';');
    WithinWithin(Trim(rest[..end]), rest[..end], rest);
    WithinFree(Trim(rest[..end]), rest);
  }

  lemma TailIsFree(s: string, i: nat)
    requires i <= |s| && Free(s, CRLF)
    ensures Free(s[i..], CRLF)
  {
    assert s[i..] == s[i..|s|];
    StretchIsWithin(s, i, |s|);
    WithinFree(s[i..], s);
  }

  lemma TitledIsPrintable(f: Field, text: string)
    requires Printable(f) && Free(text, CRLF)
    ensures Printable(f.(contentType := text)) && Printable(f.(encoding := text))
  {
    hide Free, Trimmed;
  }

  lemma RowIsPrintable(f: Field, row: string)
    requires Printable(f) && Free(row, CRLF)
    ensures ParseRow(f, row).Parsed? ==> Printable(ParseRow(f, row).field)
  {
    hide Printable, Trim, FindChar, SameIgnoringCase, Free, ParseParameters;
    var colon := FindChar(row, ':');
    if colon < |row| {
      var rest := row[colon + 1..];
      TailIsFree(row, colon + 1);
      DispositionIsPrintable(f, rest);
      var end := FindChar(rest, ';');
      if end < |rest| {
        TailIsFree(rest, end + 1);
        ParametersArePrintable(f.(disposition := Trim(rest[..end])), rest[end + 1..]);
      }
      if rest != "" {
        TailIsFree(rest, 1);
        TitledIsPrintable(f, rest[1..]);
      }
    }
  }

  lemma UpToLineEnd(header: string)
    ensures var end := Find(header, CRLF, 0); Free(if end == -1 then header else header[..end], CRLF)
  {
    var end := Find(header, CRLF, 0);
    if end != -1 {
      var row := header[..end];
      forall j | 0 <= j <= |row|
        ensures !At(row, CRLF, j)
      {
        if j + 2 <= |row| {
          assert header[j..j + 2] == row[j..j + 2];
          assert !At(header, CRLF, j);
        }
      }
    }
  }

  lemma {:induction false} RowsArePrintable(f: Field, header: string)
    requires Printable(f)
    ensures ParseRows(f, header).Parsed? ==> Printable(ParseRows(f, header).field)
    decreases |header|
  {
    hide Find, ParseRow, Printable, Free;
    var end := Find(header, CRLF, 0);
    var row := if end == -1 then header else header[..end];
    UpToLineEnd(header);
    RowIsPrintable(f, row);
    if end != -1 && ParseRow(f, row).Parsed? {
      RowsArePrintable(ParseRow(f, row).field, header[end + 2..]);
    }
  }

  /** Whatever text a field is read from, the field is printable. */
  lemma ReadIsPrintable(content: string)
    ensures ParseField(content).Parsed? ==> Printable(ParseField(content).field)
  {
    hide Find, ParseRows;
    if |content| >= 8 {
      var inner := content[2..|content| - 2];
      var split := Find(inner, CRLF + CRLF, 0);
      if split != -1 {
        RowsArePrintable(NO_FIELD, inner[..split]);
      }
    }
  }

  /** A field is read back from its text exactly if it is printable. */
  lemma FieldIsReadIff(f: Field)
    ensures ParseField(PartText(f)) == Parsed(f) <==> Printable(f)
  {
    hide ParseField, PartText, Printable;
    ReadIsPrintable(PartText(f));
    if Printable(f) {
      FieldIsRead(f);
    }
  }

  // ----- forms

  predicate AllPrintable(fs: seq<Field>) {
    forall f | f in fs :: Printable(f)
  }

  lemma InsertPrintable(fs: seq<Field>, f: Field)
    requires AllPrintable(fs) && Printable(f)
    ensures AllPrintable(Insert(fs, f))
  {
    hide Printable, UpperBound;
  }

  lemma {:induction false} ExecutePrintable(fs: seq<Field>, body: string, bound: string)
    requires bound != "" && AllPrintable(fs) && InOrder(fs)
    ensures Execute(fs, body, bound).Form? ==>
      AllPrintable(Execute(fs, body, bound).fields) && InOrder(Execute(fs, body, bound).fields)
    decreases |body|
  {
    hide Find, ParseField, Printable, Insert, InOrder, AllPrintable;
    if body != "" && At(body, bound, 0) {
      var rest := body[|bound|..];
      var next := Find(rest, bound, 0);
      if next != -1 {
        ReadIsPrintable(rest[..next]);
        match ParseField(rest[..next])
        case Parsed(f) =>
          InsertPrintable(fs, f);
          InsertKeepsOrder(fs, f);
          ExecutePrintable(Insert(fs, f), rest[next..], bound);
        case _ =>
      }
    }
  }

  /** Whatever text a form is read from, its fields are printable and its names in order. */
  lemma ReadFormIsPrintable(body: string, boundary: string)
    ensures ParseForm(body, boundary).Form? ==>
      AllPrintable(ParseForm(body, boundary).fields) && InOrder(ParseForm(body, boundary).fields)
  {
    ExecutePrintable([], body, "--" + boundary);
  }

  // ----- boundaries

  /** The boundary does not begin in the value before the line end behind it. */
  ghost predicate Clean(f: Field, bound: string) {
    forall j | 0 <= j < |f.value| + 2 :: !At(f.value + CRLF + bound, bound, j)
  }

  lemma ValueIsAtTheEnd(content: string)
    ensures ParseField(content).Parsed? ==>
      var v := ParseField(content).field.value;
      |v| + 2 <= |content| && content[|content| - |v| - 2..] == v + CRLF
  {
    hide ParseRows, Find;
    if ParseField(content).Parsed? {
      var v := ParseField(content).field.value;
      var inner := content[2..|content| - 2];
      assert v == inner[|inner| - |v|..];
      assert content[|content| - |v| - 2..|content| - 2] == v;
    }
  }

  /** What is read up to the first boundary is clean. */
  lemma ReadIsClean(rest: string, bound: string)
    ensures var next := Find(rest, bound, 0);
      next >= 0 && ParseField(rest[..next]).Parsed? ==> Clean(ParseField(rest[..next]).field, bound)
  {
    hide ParseField;
    var next := Find(rest, bound, 0);
    if next >= 0 && ParseField(rest[..next]).Parsed? {
      var content, v := rest[..next], ParseField(rest[..next]).field.value;
      ValueIsAtTheEnd(content);
      var x := next - |v| - 2;
      assert rest[next..next + |bound|] == bound;
      var s := v + CRLF + bound;
      assert rest[x..next + |bound|] == s by {
        assert rest[x..next] == content[x..];
        assert rest[x..next + |bound|] == rest[x..next] + rest[next..next + |bound|];
      }
      forall j | 0 <= j < |v| + 2
        ensures !At(s, bound, j)
      {
        assert !At(rest, bound, x + j);
        if j + |bound| <= |s| {
          assert s[j..j + |bound|] == rest[x + j..x + j + |bound|];
        }
      }
    }
  }

  ghost predicate AllClean(fs: seq<Field>, bound: string) {
    forall f | f in fs :: Clean(f, bound)
  }

  lemma InsertClean(fs: seq<Field>, f: Field, bound: string)
    requires AllClean(fs, bound) && Clean(f, bound)
    ensures AllClean(Insert(fs, f), bound)
  {
    hide Clean, UpperBound;
  }

  lemma {:induction false} ExecuteClean(fs: seq<Field>, body: string, bound: string)
    requires bound != "" && AllClean(fs, bound)
    ensures Execute(fs, body, bound).Form? ==> AllClean(Execute(fs, body, bound).fields, bound)
    decreases |body|
  {
    hide Find, ParseField, Clean, Insert, AllClean;
    if body != "" && At(body, bound, 0) {
      var rest := body[|bound|..];
      var next := Find(rest, bound, 0);
      if next != -1 {
        ReadIsClean(rest, bound);
        match ParseField(rest[..next])
        case Parsed(f) =>
          InsertClean(fs, f, bound);
          ExecuteClean(Insert(fs, f), rest[next..], bound);
        case _ =>
      }
    }
  }

  /** The text of a part before its value. */
  function Head(f: Field): string {
    CRLF + Join(Rows(f)) + (CRLF + CRLF)
  }

  lemma PartIs(f: Field)
    ensures PartText(f) == Head(f) + f.value + CRLF
  {
    PartTextIs(f);
    hide PartText, Rows, Join;
  }

  lemma InnerIs(whole: string, k: nat)
    requires 4 <= k <= |whole| + 4
    ensures (CRLF + whole + CRLF)[..k][2..k - 2] == whole[..k - 4]
  {
    var a, b := (CRLF + whole + CRLF)[..k][2..k - 2], whole[..k - 4];
    forall x | 0 <= x < |b|
      ensures a[x] == b[x]
    {
      assert a[x] == (CRLF + whole + CRLF)[x + 2];
    }
  }

  lemma AtFront(s: string, k: nat, pat: string, i: nat)
    requires k <= |s| && At(s[..k], pat, i)
    ensures At(s, pat, i)
  {
    assert s[i..i + |pat|] == s[..k][i..i + |pat|];
  }

  /** A part cut off in its header is refused. */
  lemma CutHeadIsMalformed(f: Field, k: nat)
    requires Printable(f) && k < |Head(f)|
    ensures k <= |PartText(f)| && ParseField(PartText(f)[..k]) == Malformed
  {
    hide Printable, Rows, Join, ParseRows, Find, PartText, At;
    PartTextIs(f);
    RowsAreRows(f);
    HeaderEnds(Rows(f), f.value);
    var hdr := Join(Rows(f));
    var content := PartText(f)[..k];
    if k >= 8 {
      var whole := hdr + (CRLF + CRLF) + f.value;
      var inner := content[2..k - 2];
      InnerIs(whole, k);
      var split := Find(inner, CRLF + CRLF, 0);
      if split != -1 {
        AtFront(whole, k - 4, CRLF + CRLF, split);
        InFront(inner, CRLF + CRLF, split);
      }
    }
  }

  lemma InFront(s: string, pat: string, i: nat)
    requires At(s, pat, i)
    ensures i + |pat| <= |s|
  {
  }

  lemma ShiftedAt(a: string, t: string, pat: string, k: nat)
    requires At(a + t, pat, k) && k >= |a|
    ensures At(t, pat, k - |a|)
  {
    assert (a + t)[k..k + |pat|] == t[k - |a|..k - |a| + |pat|];
  }

  lemma AtEnd(s: string, pat: string)
    ensures 0 <= Find(s + pat, pat, 0) <= |s|
  {
    assert (s + pat)[|s|..|s| + |pat|] == pat;
    assert At(s + pat, pat, |s|);
  }

  /** Where the boundary of a clean part that is not bounded begins. */
  lemma BeginsInHead(f: Field, boundary: string)
    requires Clean(f, "--" + boundary) && !Bounded(f, boundary)
    ensures 0 <= Find(PartText(f) + ("--" + boundary), "--" + boundary, 0) < |Head(f)|
  {
    hide PartText, Head, At, Find;
    PartIs(f);
    var bound := "--" + boundary;
    AtEnd(PartText(f), bound);
    var k := Find(PartText(f) + bound, bound, 0);
    if k >= |Head(f)| {
      assert PartText(f) + bound == Head(f) + (f.value + CRLF + bound);
      ShiftedAt(Head(f), f.value + CRLF + bound, bound, k);
    }
  }

  lemma FindWhole(s: string, t: string, pat: string)
    requires Find(s, pat, 0) >= 0
    ensures Find(s + t, pat, 0) == Find(s, pat, 0)
  {
    var k := Find(s, pat, 0);
    assert (s + t)[k..k + |pat|] == s[k..k + |pat|];
    forall j | 0 <= j < k
      ensures !At(s + t, pat, j)
    {
      assert !At(s, pat, j);
      if j + |pat| <= |s| {
        assert (s + t)[j..j + |pat|] == s[j..j + |pat|];
      }
    }
    FindIs(s + t, pat, k);
  }

  /** At a clean part that the boundary does not divide the parser stops. */
  lemma UnboundedStops(done: seq<Field>, f: Field, boundary: string, t: string)
    requires Printable(f) && Clean(f, "--" + boundary) && !Bounded(f, boundary)
    ensures var bound := "--" + boundary; Execute(done, bound + (PartText(f) + (bound + t)), bound) == Form(done)
  {
    hide PartText, ParseField, Find, Head, Printable, Clean, Bounded, Insert;
    var bound := "--" + boundary;
    PartIs(f);
    BeginsInHead(f, boundary);
    var s := PartText(f) + bound;
    FindWhole(s, t, bound);
    var rest := PartText(f) + (bound + t);
    assert rest == s + t;
    var k := Find(rest, bound, 0);
    CutHeadIsMalformed(f, k);
    assert rest[..k] == PartText(f)[..k];
    PartBegins(f);
    assert rest[0] == '\r';
    NotAt(rest, "--", 0);
    var body := bound + rest;
    assert body[0..|bound|] == bound && body[|bound|..] == rest;
  }

  lemma {:induction false} PartsAreBounded(done: seq<Field>, fs: seq<Field>, boundary: string)
    requires AllPrintable(fs) && AllClean(fs, "--" + boundary) && InOrder(done + fs)
    requires Execute(done, FormText(fs, boundary), "--" + boundary) == Form(done + fs)
    ensures forall f | f in fs :: Bounded(f, boundary)
    decreases |fs|
  {
    if fs != [] {
      hide FormText, Execute, Printable, Clean, Bounded, Insert, PartText, Find, InOrder;
      var bound, f, next := "--" + boundary, fs[0], FormText(fs[1..], boundary);
      FormSplits(fs, boundary);
      FormBegins(fs[1..], boundary);
      assert next == bound + next[|bound|..];
      OneMore(done, fs);
      assert |done + fs| > |done|;
      assert FormText(fs, boundary) == bound + (PartText(f) + (bound + next[|bound|..]));
      if !Bounded(f, boundary) {
        UnboundedStops(done, f, boundary, next[|bound|..]);
      }
      BoundedIs(f, boundary);
      FindInFront(PartText(f), next[|bound|..], bound);
      PartStep(done, f, next, bound);
      PartsAreBounded(done + [f], fs[1..], boundary);
    }
  }

  lemma BoundedIs(f: Field, boundary: string)
    requires Bounded(f, boundary)
    ensures Find(PartText(f) + ("--" + boundary), "--" + boundary, 0) == |PartText(f)|
  {
  }

  /**
   A form is read back from its text exactly if its names are in order, its fields are
   printable, and the boundary divides its parts.
   */
  lemma FormIsReadIff(fs: seq<Field>, boundary: string)
    ensures ParseForm(FormText(fs, boundary), boundary) == Form(fs) <==>
      InOrder(fs) && AllPrintable(fs) && forall f | f in fs :: Bounded(f, boundary)
  {
    hide FormText, InOrder, Printable, Bounded, Execute, Clean;
    ReadFormIsPrintable(FormText(fs, boundary), boundary);
    ExecuteClean([], FormText(fs, boundary), "--" + boundary);
    if InOrder(fs) && AllPrintable(fs) && forall f | f in fs :: Bounded(f, boundary) {
      FormIsRead(fs, boundary);
    }
    if ParseForm(FormText(fs, boundary), boundary) == Form(fs) {
      assert [] + fs == fs;
      PartsAreBounded([], fs, boundary);
    }
  }

  // ----- texts that are lost

  /** A semicolon in a name: the field does not come back. */
  lemma SemicolonIsLost(value: string)
    ensures var f := NO_FIELD.(disposition := "form-data", name := "a;b", value := value);
            ParseField(PartText(f)) != Parsed(f)
  {
    var f := NO_FIELD.(disposition := "form-data", name := "a;b", value := value);
    hide ParseField, PartText;
    FieldIsReadIff(f);
    assert "a;b"[1] == ';';
  }

  /** A value with the boundary line in it: the form does not come back. */
  lemma BoundaryInValueIsLost(name: string)
    ensures var f := NO_FIELD.(disposition := "form-data", name := name, value := "--b");
            ParseForm(FormText([f], "b"), "b") != Form([f])
  {
    var f := NO_FIELD.(disposition := "form-data", name := name, value := "--b");
    FormIsReadIff([f], "b");
    BoundedIff(f, "b");
    PartIs(f);
    hide PartText, ParseForm, FormText, Bounded, Head;
    var part, h := PartText(f), |Head(f)|;
    assert part[h..h + 3] == "--b";
    assert "--" + "b" == "--b";
    assert At(part, "--b", h);
  }
}
