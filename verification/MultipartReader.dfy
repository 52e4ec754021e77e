/** A reader of multipart bodies, written from section 5.1.1 of RFC 2046 and not from the encoder, and what it reads
    back from an encoded body. */
module MultipartReader {
  import opened Prelude
  import opened Text
  import opened Quote
  import opened Multipart

  // ----- the reader -----

  predicate OccursAt(s: Bytes, pattern: Bytes, i: nat)
  {
    i + |pattern| <= |s| && s[i..i + |pattern|] == pattern
  }

  /** Where a pattern occurs first. */
  function Find(s: Bytes, pattern: Bytes): (r: Option<nat>)
    ensures r.Some? ==> OccursAt(s, pattern, r.value)
  {
    if OccursAt(s, pattern, 0) then Some(0)
    else if s == [] then None
    else
      match Find(s[1..], pattern)
      case None => None
      case Some(i) =>
        assert s[1..][i..i + |pattern|] == s[i + 1..i + 1 + |pattern|];
        Some(i + 1)
  }

  /** What stands before the blank line, and what stands before the next delimiter. */
  datatype Part = Part(header: Bytes, content: Bytes)

  function ReadParts(body: Bytes, boundary: Bytes): Option<seq<Part>>
    decreases |body|
  {
    var delimiter: Bytes := [0x2D, 0x2D] + boundary;
    if body == delimiter + [0x2D, 0x2D, 0x0D, 0x0A] then Some([])
    else if !(delimiter + [0x0D, 0x0A] <= body) then None
    else
      var rest := body[|delimiter| + 2..];
      match Find(rest, [0x0D, 0x0A, 0x0D, 0x0A])
      case None => None
      case Some(h) =>
        var after := rest[h + 4..];
        match Find(after, [0x0D, 0x0A] + delimiter)
        case None => None
        case Some(c) =>
          match ReadParts(after[c + 2..], boundary)
          case None => None
          case Some(parts) => Some([Part(rest[..h], after[..c])] + parts)
  }

  /** A quoted parameter: the bytes after `mark` up to the next quote. */
  function ReadQuoted(s: Bytes, mark: Bytes): (r: Option<Bytes>)
    ensures r.Some? ==> |mark| + |r.value| <= |s|
  {
    if !(mark <= s) then None
    else
      match Find(s[|mark|..], [0x22])
      case None => None
      case Some(n) => Some(s[|mark|..|mark| + n])
  }

  const NAME_MARK := "Content-Disposition: form-data; name=\""
  const FILENAME_MARK := "\"; filename=\""

  function ReadName(header: Bytes): Option<Bytes> { ReadQuoted(header, Encoded(NAME_MARK)) }

  /** The filename follows the name, if there is one. */
  function ReadFilename(header: Bytes): Option<Bytes>
  {
    var name := ReadName(header);
    if name.None? then None else ReadQuoted(header[|Encoded(NAME_MARK)| + |name.value|..], Encoded(FILENAME_MARK))
  }

  // ----- encoded text -----

  lemma {:induction false} EncodedSplit(a: string, b: string)
    ensures Encoded(a + b) == Encoded(a) + Encoded(b)
  {
    hide Utf8;
    if a == "" {
      assert a + b == b;
    } else {
      assert (a + b)[1..] == a[1..] + b;
      EncodedSplit(a[1..], b);
    }
  }

  /** Different texts are encoded differently. */
  lemma {:induction false} EncodedInjective(a: string, b: string)
    requires Encoded(a) == Encoded(b)
    ensures a == b
  {
    hide Utf8;
    if a != "" && b != "" {
      Utf8ReadsBack(a[0], Encoded(a[1..]));
      Utf8ReadsBack(b[0], Encoded(b[1..]));
      EncodedInjective(a[1..], b[1..]);
      assert a == [a[0]] + a[1..] && b == [b[0]] + b[1..];
    }
  }

  /** An ASCII byte stands for an ASCII character. */
  lemma {:induction false} EncodedAvoids(s: string, c: char)
    requires c !in s && IsAscii(c)
    ensures c as int !in Encoded(s)
  {
    if s != "" {
      EncodedAvoids(s[1..], c);
      assert s[0] in s;
      Utf8Avoids(s[0], c);
    }
  }

  lemma Utf8Avoids(d: char, c: char)
    requires d != c && IsAscii(c)
    ensures c as int !in Utf8(d)
  {
  }

  lemma EncodedAscii()
    ensures Encoded("\"") == [0x22] && Encoded("\r\n\r\n") == [0x0D, 0x0A, 0x0D, 0x0A] && Encoded("") == []
  {
    assert "\r\n\r\n"[1..] == "\n\r\n" && "\n\r\n"[1..] == "\r\n" && "\r\n"[1..] == "\n" && "\n"[1..] == "";
    assert Encoded("\n") == [0x0A] + Encoded("");
    assert Encoded("\r\n") == [0x0D] + Encoded("\n");
    assert Encoded("\n\r\n") == [0x0A] + Encoded("\r\n");
    assert "\""[1..] == "" && Encoded("\"") == [0x22] + Encoded("");
  }

  // ----- finding -----

  lemma {:induction false} FindFirst(s: Bytes, pattern: Bytes, n: nat)
    requires OccursAt(s, pattern, n) && forall i: nat | i < n :: !OccursAt(s, pattern, i)
    ensures Find(s, pattern) == Some(n)
    decreases n
  {
    if n > 0 {
      assert !OccursAt(s, pattern, 0);
      assert s[1..][n - 1..n - 1 + |pattern|] == s[n..n + |pattern|];
      forall i: nat | i < n - 1
        ensures !OccursAt(s[1..], pattern, i)
      {
        assert !OccursAt(s, pattern, i + 1);
        assert i + 1 + |pattern| <= |s| ==> s[1..][i..i + |pattern|] == s[i + 1..i + 1 + |pattern|];
      }
      FindFirst(s[1..], pattern, n - 1);
    }
  }

  /** The pattern occurs in `a + pattern` at its end only. */
  predicate Clean(a: Bytes, pattern: Bytes)
  {
    forall i: nat | i < |a| :: !OccursAt(a + pattern, pattern, i)
  }

  lemma FindAfter(a: Bytes, pattern: Bytes, b: Bytes)
    requires Clean(a, pattern)
    ensures Find(a + pattern + b, pattern) == Some(|a|)
  {
    var s := a + pattern + b;
    assert s[|a|..|a| + |pattern|] == pattern;
    forall i: nat | i < |a|
      ensures !OccursAt(s, pattern, i)
    {
      assert !OccursAt(a + pattern, pattern, i);
      assert s[i..i + |pattern|] == (a + pattern)[i..i + |pattern|];
    }
    FindFirst(s, pattern, |a|);
  }

  lemma CleanWithout(a: Bytes, pattern: Bytes)
    requires pattern != [] && pattern[0] !in a
    ensures Clean(a, pattern)
  {
    forall i: nat | i < |a|
      ensures !OccursAt(a + pattern, pattern, i)
    {
      assert (a + pattern)[i..i + |pattern|][0] == a[i];
    }
  }

  // ----- parts -----

  /** The header of a field, without the blank line. */
  function HeadText(field: Field): string
  {
    match field
    case DataField(name, _) => NAME_MARK + EscapedValue(name) + "\""
    case FileField(name, filename, headers, _) =>
      NAME_MARK + EscapedValue(name)
      + (if filename.None? || filename.value == "" then "\""
         else FILENAME_MARK + EscapedValue(filename.value) + "\"")
      + HeaderLines(headers)
  }

  lemma HeadOf(field: Field)
    ensures RenderedHeaders(field) == Encoded(HeadText(field)) + [0x0D, 0x0A, 0x0D, 0x0A]
  {
    hide Encoded, EscapedValue, HeaderLines;
    EncodedAscii();
    EncodedSplit(HeadText(field), "\r\n\r\n");
    HeadAsRendered(field);
  }

  lemma RegroupHead(a: string, b: string, c: string, value: string, quote: string)
    ensures a + (b + c + value + quote) == (a + (b + c)) + value + quote
  {
  }

  lemma HeadAsRendered(field: Field)
    ensures RenderedHeaders(field) == Encoded(HeadText(field) + "\r\n\r\n")
  {
    hide Encoded, EscapedValue, HeaderLines;
    RegroupHead("Content-Disposition: form-data; ", "name", "=\"", EscapedValue(field.name), "\"");
    NameMark();
    match field
    case DataField(_, _) =>
    case FileField(_, filename, headers, _) =>
      var name := NAME_MARK + EscapedValue(field.name);
      if filename.Some? && filename.value != "" {
        RegroupHead("; ", "filename", "=\"", EscapedValue(filename.value), "\"");
        FilenameMark();
        FilenameHead(name, EscapedValue(filename.value));
      } else {
        assert name + "\"" + "" == name + "\"";
      }
  }

  lemma NameMark()
    ensures "Content-Disposition: form-data; " + ("name" + "=\"") == NAME_MARK
  {
  }

  lemma FilenameMark()
    ensures "; " + ("filename" + "=\"") == "; filename=\"" && "\"" + "; filename=\"" == FILENAME_MARK
  {
  }

  lemma FilenameHead(name: string, value: string)
    ensures (name + "\"") + ("; filename=\"" + value + "\"") == name + (FILENAME_MARK + value + "\"")
  {
    FilenameMark();
    assert (name + "\"") + ("; filename=\"" + value + "\"") == name + ("\"" + "; filename=\"" + value + "\"");
  }

  /** No blank line in the header but the one that ends it, and no delimiter in the content. */
  predicate Readable(field: Field, boundary: Bytes, at: Cursors)
  {
    && Clean(Encoded(HeadText(field)), [0x0D, 0x0A, 0x0D, 0x0A])
    && Clean(ContentOf(field, at), [0x0D, 0x0A] + ([0x2D, 0x2D] + boundary))
  }

  predicate AllReadable(fields: seq<Field>, boundary: Bytes, at: Cursors)
    decreases |fields|
  {
    fields == [] || (Readable(fields[0], boundary, at) && AllReadable(fields[1..], boundary, After(fields[0], at)))
  }

  function PartsOf(fields: seq<Field>, at: Cursors): seq<Part>
    decreases |fields|
  {
    if fields == [] then []
    else [Part(Encoded(HeadText(fields[0])), ContentOf(fields[0], at))] + PartsOf(fields[1..], After(fields[0], at))
  }

  lemma BodyStarts(fields: seq<Field>, boundary: Bytes, at: Cursors)
    ensures [0x2D, 0x2D] + boundary <= BodyOf(fields, boundary, at)
  {
    hide RenderedHeaders, ContentOf;
  }

  /** A body that goes on after its first delimiter is not the closing one. */
  lemma GoesOn(body: Bytes, delimiter: Bytes, rest: Bytes)
    requires body == delimiter + [0x0D, 0x0A] + rest
    ensures body != delimiter + [0x2D, 0x2D, 0x0D, 0x0A] && delimiter + [0x0D, 0x0A] <= body
    ensures body[|delimiter| + 2..] == rest
  {
    assert body[|delimiter|] == 0x0D && (delimiter + [0x2D, 0x2D, 0x0D, 0x0A])[|delimiter|] == 0x2D;
  }

  lemma ReadOne(body: Bytes, boundary: Bytes, rest: Bytes, after: Bytes, next: Bytes, h: nat, c: nat)
    requires body == [0x2D, 0x2D] + boundary + [0x0D, 0x0A] + rest
    requires Find(rest, [0x0D, 0x0A, 0x0D, 0x0A]) == Some(h) && rest[h + 4..] == after
    requires Find(after, [0x0D, 0x0A] + ([0x2D, 0x2D] + boundary)) == Some(c) && after[c + 2..] == next
    ensures ReadParts(body, boundary)
            == match ReadParts(next, boundary)
               case None => None
               case Some(more) => Some([Part(rest[..h], after[..c])] + more)
  {
    hide Find;
    GoesOn(body, [0x2D, 0x2D] + boundary, rest);
  }

  lemma FirstPart(head: Bytes, content: Bytes, boundary: Bytes, body: Bytes, next: Bytes, parts: Option<seq<Part>>)
    requires var delimiter := [0x2D, 0x2D] + boundary;
             && Clean(head, [0x0D, 0x0A, 0x0D, 0x0A]) && Clean(content, [0x0D, 0x0A] + delimiter)
             && delimiter <= next && ReadParts(next, boundary) == parts
             && body == delimiter + [0x0D, 0x0A] + (head + [0x0D, 0x0A, 0x0D, 0x0A]) + content + [0x0D, 0x0A] + next
    ensures ReadParts(body, boundary)
            == match parts case None => None case Some(more) => Some([Part(head, content)] + more)
  {
    hide Find, Clean, ReadParts;
    var delimiter: Bytes := [0x2D, 0x2D] + boundary;
    var blank, line: Bytes := [0x0D, 0x0A, 0x0D, 0x0A], [0x0D, 0x0A];
    var after := content + line + next;
    var rest := head + blank + after;
    assert body == delimiter + line + rest;
    FindAfter(head, blank, after);
    assert rest[|head| + 4..] == after && rest[..|head|] == head;
    var tail := next[|delimiter|..];
    assert after == content + (line + delimiter) + tail;
    FindAfter(content, line + delimiter, tail);
    assert after[|content| + 2..] == next && after[..|content|] == content;
    ReadOne(body, boundary, rest, after, next, |head|, |content|);
  }

  /** Every field is read back from the body: its header up to the blank line, and its content. */
  lemma {:induction false} BodyReadsBack(fields: seq<Field>, boundary: Bytes, at: Cursors)
    requires AllReadable(fields, boundary, at)
    ensures ReadParts(BodyOf(fields, boundary, at), boundary) == Some(PartsOf(fields, at))
    decreases |fields|
  {
    hide RenderedHeaders, ContentOf, After, Clean, HeadText, Find;
    if fields == [] {
      assert BodyOf(fields, boundary, at) == [0x2D, 0x2D] + boundary + [0x2D, 0x2D, 0x0D, 0x0A];
    } else {
      var rest := After(fields[0], at);
      BodyReadsBack(fields[1..], boundary, rest);
      BodyStarts(fields[1..], boundary, rest);
      HeadOf(fields[0]);
      FirstPart(Encoded(HeadText(fields[0])), ContentOf(fields[0], at), boundary, BodyOf(fields, boundary, at),
                BodyOf(fields[1..], boundary, rest), Some(PartsOf(fields[1..], rest)));
    }
  }

  // ----- names -----

  lemma QuotedReadsBack(mark: string, value: string, rest: string)
    requires '"' !in value
    ensures ReadQuoted(Encoded(mark + value + ("\"" + rest)), Encoded(mark)) == Some(Encoded(value))
    ensures Encoded(mark + value + ("\"" + rest))[|Encoded(mark)| + |Encoded(value)|..] == Encoded("\"" + rest)
  {
    hide Encoded, Find, Clean;
    EncodedAscii();
    EncodedSplit(mark + value, "\"" + rest);
    EncodedSplit(mark, value);
    EncodedSplit("\"", rest);
    EncodedAvoids(value, '"');
    var m, v, r := Encoded(mark), Encoded(value), Encoded(rest);
    var s := m + v + ([0x22] + r);
    CleanWithout(v, [0x22]);
    FindAfter(v, [0x22], r);
    assert s[|m|..] == v + [0x22] + r && s[|m|..|m| + |v|] == v && m <= s;
  }

  lemma EscapedNoQuote(s: string)
    ensures '"' !in EscapedValue(s)
  {
    EscapedValueStaysQuoted(s);
    assert IsEscaped('"');
  }

  /** The name, escaped, is read back from the header of any field. */
  lemma NameReadsBack(field: Field)
    ensures ReadName(Encoded(HeadText(field))) == Some(Encoded(EscapedValue(field.name)))
  {
    hide Encoded, EscapedValue;
    EscapedNoQuote(field.name);
    QuotedReadsBack(NAME_MARK, EscapedValue(field.name), AfterName(field));
    HeadByName(field);
  }

  /** What follows the quote that ends the name. */
  function AfterName(field: Field): string
  {
    match field
    case DataField(_, _) => ""
    case FileField(_, filename, headers, _) =>
      if filename.None? || filename.value == "" then HeaderLines(headers)
      else "; filename=\"" + EscapedValue(filename.value) + ("\"" + HeaderLines(headers))
  }

  lemma HeadByName(field: Field)
    ensures HeadText(field) == NAME_MARK + EscapedValue(field.name) + ("\"" + AfterName(field))
  {
    hide EscapedValue, HeaderLines;
    match field
    case DataField(_, _) =>
    case FileField(_, filename, headers, _) =>
      if filename.Some? && filename.value != "" {
        var value := EscapedValue(filename.value);
        assert "\"" + ("; filename=\"" + value + ("\"" + HeaderLines(headers)))
               == FILENAME_MARK + value + "\"" + HeaderLines(headers);
      }
  }

  /** The filename is read back, and none is read where there is none. */
  lemma FilenameReadsBack(field: Field)
    ensures ReadFilename(Encoded(HeadText(field))) ==
            if field.FileField? && field.filename.Some? && field.filename.value != ""
            then Some(Encoded(EscapedValue(field.filename.value))) else None
  {
    NoFilename(field);
    hide Encoded, EscapedValue, AfterName, HeaderLines, ReadQuoted;
    EscapedNoQuote(field.name);
    NameReadsBack(field);
    HeadByName(field);
    QuotedReadsBack(NAME_MARK, EscapedValue(field.name), AfterName(field));
    if field.FileField? && field.filename.Some? && field.filename.value != "" {
      var value, rest := EscapedValue(field.filename.value), HeaderLines(field.headers);
      EscapedNoQuote(field.filename.value);
      QuotedReadsBack(FILENAME_MARK, value, rest);
      FilenameFollows(field);
    }
  }

  lemma FilenameFollows(field: Field)
    requires field.FileField? && field.filename.Some? && field.filename.value != ""
    ensures "\"" + AfterName(field)
            == FILENAME_MARK + EscapedValue(field.filename.value) + ("\"" + HeaderLines(field.headers))
  {
    hide EscapedValue, HeaderLines;
  }

  lemma NotThere(s: Bytes, mark: Bytes)
    requires |mark| > 1 && (|s| <= 1 || s[1] != mark[1])
    ensures ReadQuoted(s, mark).None?
  {
  }

  lemma NoFilename(field: Field)
    ensures !(field.FileField? && field.filename.Some? && field.filename.value != "") ==>
              ReadQuoted(Encoded("\"" + AfterName(field)), Encoded(FILENAME_MARK)).None?
  {
    if !(field.FileField? && field.filename.Some? && field.filename.value != "") {
      var rest := AfterName(field);
      assert rest == "" || rest[0] == '\r';
      hide AfterName, ReadQuoted, Encoded;
      StartBytes("\"" + rest);
      StartBytes(FILENAME_MARK);
      NotThere(Encoded("\"" + rest), Encoded(FILENAME_MARK));
    }
  }

  lemma StartBytes(s: string)
    requires s != "" && IsAscii(s[0])
    ensures |s| == 1 ==> |Encoded(s)| == 1
    ensures |s| > 1 && IsAscii(s[1]) ==> |Encoded(s)| > 1 && Encoded(s)[1] == s[1] as int
  {
    assert Encoded(s) == [s[0] as int] + Encoded(s[1..]);
    if |s| > 1 && IsAscii(s[1]) {
      assert Encoded(s[1..]) == [s[1] as int] + Encoded(s[1..][1..]);
    }
  }

  /** A name goes into its header as it is exactly if it has no quote, no backslash and no control character but
      escape; and what replaces those. */
  lemma {:induction false} EscapedAsItIs(s: string)
    ensures EscapedValue(s) == s <==>
            forall i | 0 <= i < |s| :: s[i] != '"' && s[i] != '\\' && (s[i] as int > 0x1F || s[i] as int == 0x1B)
    ensures |EscapedValue(s)| >= |s|
  {
    if s != "" {
      EscapedAsItIs(s[1..]);
      var head, tail := Replacement(s[0]), EscapedValue(s[1..]);
      assert EscapedValue(s) == head + tail && s == [s[0]] + s[1..];
      if |head| == 1 {
        assert (head + tail)[1..] == tail;
      }
    }
  }

  // ----- further headers -----

  predicate IsReturn(c: char) { c == '\r' }

  /** Lines of the form `name: value`, each behind a line break. */
  function ReadLines(s: string): (r: Option<seq<(string, string)>>)
  {
    if s == "" then Some([])
    else if !("\r\n" <= s) then None
    else
      var n := 2 + SpanNot(s[2..], IsColon);
      if !(": " <= s[n..]) then None
      else
        var end := n + 2 + SpanNot(s[n + 2..], IsReturn);
        match ReadLines(s[end..])
        case None => None
        case Some(rest) => Some([(s[2..n], s[n + 2..end])] + rest)
  }

  predicate IsColon(c: char) { c == ':' }

  /** The lines of a header after its first one. */
  function ReadFurther(head: string): Option<seq<(string, string)>> { ReadLines(head[SpanNot(head, IsReturn)..]) }

  /** Names without colon, and no line break in a value. */
  predicate Plain(headers: seq<(string, string)>)
  {
    forall i | 0 <= i < |headers| :: ':' !in headers[i].0 && '\r' !in headers[i].1
  }

  lemma Cuts(a: string, name: string, colon: string, value: string, rest: string)
    ensures var s, n := a + name + colon + value + rest, |a| + |name|;
            && s[|a|..] == name + (colon + value + rest) && s[|a|..n] == name
            && s[n..] == colon + value + rest
            && s[n + |colon|..] == value + rest && s[n + |colon|..n + |colon| + |value|] == value
            && s[n + |colon| + |value|..] == rest
  {
  }

  lemma FirstLine(name: string, value: string, rest: string)
    requires ':' !in name && '\r' !in value && (rest == "" || rest[0] == '\r')
    ensures ReadLines("\r\n" + name + ": " + value + rest)
            == match ReadLines(rest) case None => None case Some(more) => Some([(name, value)] + more)
  {
    hide SpanNot;
    var after := ": " + value + rest;
    Cuts("\r\n", name, ": ", value, rest);
    SpanNotOf(name, after, IsColon);
    SpanNotOf(value, rest, IsReturn);
    var s := "\r\n" + name + ": " + value + rest;
    assert "\r\n" <= s && ": " <= after;
  }

  lemma LinesStep(headers: seq<(string, string)>)
    requires headers != []
    ensures HeaderLines(headers) == "\r\n" + headers[0].0 + ": " + headers[0].1 + HeaderLines(headers[1..])
    ensures HeaderLines(headers)[0] == '\r'
  {
  }

  lemma {:induction false} LinesReadBack(headers: seq<(string, string)>)
    requires Plain(headers)
    ensures ReadLines(HeaderLines(headers)) == Some(headers)
    ensures HeaderLines(headers) == "" || HeaderLines(headers)[0] == '\r'
  {
    if headers != [] {
      assert Plain(headers[1..]) by {
        assert forall i | 0 <= i < |headers[1..]| :: headers[1..][i] == headers[i + 1];
      }
      LinesReadBack(headers[1..]);
      LinesStep(headers);
      hide ReadLines, HeaderLines;
      FirstLine(headers[0].0, headers[0].1, HeaderLines(headers[1..]));
      assert headers == [(headers[0].0, headers[0].1)] + headers[1..];
    }
  }

  /** The further headers of a file field are read back in order, whatever its name and filename. */
  lemma HeadersReadBack(field: Field)
    requires field.FileField? ==> Plain(field.headers)
    ensures ReadFurther(HeadText(field)) == Some(if field.FileField? then field.headers else [])
  {
    hide EscapedValue, HeaderLines, ReadLines, HeadText;
    var headers := if field.FileField? then field.headers else [];
    LinesReadBack(headers);
    NoFurther();
    var first := FirstHeadLine(field);
    SpanNotOf(first, HeaderLines(headers), IsReturn);
    assert (first + HeaderLines(headers))[|first|..] == HeaderLines(headers);
  }

  lemma NoFurther()
    ensures HeaderLines([]) == ""
  {
  }

  lemma FirstHeadLine(field: Field) returns (first: string)
    ensures HeadText(field) == first + HeaderLines(if field.FileField? then field.headers else [])
    ensures Avoids(first, IsReturn)
  {
    hide EscapedValue, HeaderLines, IsReturn;
    NoFurther();
    EscapedStays(field.name);
    MarksStay();
    first := NAME_MARK + EscapedValue(field.name) + "\"";
    if field.FileField? && field.filename.Some? && field.filename.value != "" {
      EscapedStays(field.filename.value);
      first := NAME_MARK + EscapedValue(field.name) + (FILENAME_MARK + EscapedValue(field.filename.value) + "\"");
    }
    assert first + "" == first;
  }

  lemma EscapedStays(s: string)
    ensures Avoids(EscapedValue(s), IsReturn)
  {
    EscapedValueStaysQuoted(s);
    assert IsEscaped('\r');
  }

  lemma MarksStay()
    ensures Avoids(NAME_MARK, IsReturn) && Avoids(FILENAME_MARK, IsReturn) && Avoids("\"", IsReturn)
  {
  }

  lemma Replacements()
    ensures Replacement('"') == "%22" && Replacement('\\') == "\\\\" && Replacement('\r') == "%0D"
    ensures Replacement('\n') == "%0A" && Replacement('\0') == "%00" && Replacement('\U{1F}') == "%1F"
    ensures forall c: char | c as int <= 0x1F && c as int != 0x1B ::
              Replacement(c) == ['%', "0123456789ABCDEF"[c as int / 16], "0123456789ABCDEF"[c as int % 16]]
  {
  }

  /** The header of a data field has no other blank line. */
  lemma DataHeadIsClean(name: string, value: Bytes)
    ensures Clean(Encoded(HeadText(DataField(name, value))), [0x0D, 0x0A, 0x0D, 0x0A])
  {
    hide Encoded, EscapedValue, Clean;
    var head := HeadText(DataField(name, value));
    EscapedValueStaysQuoted(name);
    assert IsEscaped('\r');
    assert '\r' !in NAME_MARK;
    assert '\r' !in head;
    EncodedAvoids(head, '\r');
    CleanWithout(Encoded(head), [0x0D, 0x0A, 0x0D, 0x0A]);
  }
}
