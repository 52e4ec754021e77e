/** The multipart encoder of httpxp/_multipart.py: predicted length, streamed bytes, and the boundary parameter. */
module Multipart {
  import opened Prelude
  import opened Text
  import opened Quote

  type Bytes = seq<byte>

  const CHUNK_SIZE := 64 * 1024

  /** `text.encode()` */
  function Encoded(s: string): Bytes
  {
    if s == "" then [] else Utf8(s[0]) + Encoded(s[1..])
  }

  // ----- form parameters -----

  /** Characters replaced by their percent form: a quote, and the C0 controls but escape. */
  predicate IsEscaped(c: char) { c == '"' || (c as int <= 0x1F && c as int != 0x1B) }

  function Replacement(c: char): string
  {
    if c == '\\' then "\\\\"
    else if IsEscaped(c) then ['%', HexDigit(c as int / 16), HexDigit(c as int % 16)]
    else [c]
  }

  function EscapedValue(s: string): string
  {
    if s == "" then "" else Replacement(s[0]) + EscapedValue(s[1..])
  }

  /** `_format_form_param` */
  function FormParam(name: string, value: string): string { name + "=\"" + EscapedValue(value) + "\"" }

  /** No raw quote or line break is left in a value, so it ends where its closing quote stands. */
  lemma {:induction false} EscapedValueStaysQuoted(s: string)
    ensures Avoids(EscapedValue(s), IsEscaped)
  {
    if s != "" {
      EscapedValueStaysQuoted(s[1..]);
      assert Avoids(Replacement(s[0]), IsEscaped);
    }
  }

  // ----- fields -----

  /** A binary file object: what reading it from the start gives, a cursor, whether it can be repositioned, and
      the size `os.fstat` reports, if it has a file descriptor. That size need not be the length of what reading
      gives: it is 0 for a pipe, and the compressed size for a compressed file. */
  class FileObject {
    const data: Bytes
    const seekable: bool
    const descriptor: Option<nat>
    var position: nat

    ghost predicate Valid()
      reads this
    {
      position <= |data|
    }

    constructor (data: Bytes, seekable: bool, descriptor: Option<nat>)
      ensures Valid() && position == 0
      ensures this.data == data && this.seekable == seekable && this.descriptor == descriptor
    {
      this.data, this.seekable, this.descriptor, position := data, seekable, descriptor, 0;
    }

    /** The length the multipart encoder is told, None where there is neither a descriptor nor seeking. */
    function Reported(): Option<nat>
    {
      if descriptor.Some? then descriptor else if seekable then Some(|data|) else None
    }

    method Read(n: nat) returns (chunk: Bytes)
      requires Valid() && n >= 1
      modifies this
      ensures Valid() && old(position) + |chunk| == position && |chunk| <= n
      ensures chunk == data[old(position)..position] && (chunk == [] <==> old(position) == |data|)
    {
      var end := if position + n <= |data| then position + n else |data|;
      chunk := data[position..end];
      position := end;
    }

    method Rewind()
      requires seekable
      modifies this
      ensures Valid() && position == 0
    {
      position := 0;
    }

    /** `peek_filelike_length`: the size of the descriptor, or to the end and back. */
    method PeekLength() returns (n: Option<nat>)
      requires Valid()
      modifies this
      ensures Valid() && position == old(position)
      ensures n == Reported()
    {
      if descriptor.Some? {
        return descriptor;
      }
      if !seekable {
        return None;
      }
      var offset := position;
      position := |data|;
      var length := position;
      position := offset;
      n := Some(length);
    }
  }

  datatype Source = Buffer(bytes: Bytes) | File(file: FileObject)

  datatype Field =
    | DataField(name: string, value: Bytes)
    | FileField(name: string, filename: Option<string>, headers: seq<(string, string)>, source: Source)

  function HeaderLines(headers: seq<(string, string)>): string
  {
    if headers == [] then "" else "\r\n" + headers[0].0 + ": " + headers[0].1 + HeaderLines(headers[1..])
  }

  /** `render_headers`; the cached bytes never change, for neither does the field. */
  function RenderedHeaders(field: Field): Bytes
  {
    var name := "Content-Disposition: form-data; " + FormParam("name", field.name);
    match field
    case DataField(_, _) => Encoded(name + "\r\n\r\n")
    case FileField(_, filename, headers, _) =>
      Encoded(name
              + (if filename.None? || filename.value == "" then "" else "; " + FormParam("filename", filename.value))
              + HeaderLines(headers) + "\r\n\r\n")
  }

  /** Where the cursor of each file stands. */
  type Cursors = map<FileObject, nat>

  /** What reading a file gives, rewound if that is possible. */
  function Sent(file: FileObject, cursor: nat): Bytes
  {
    if file.seekable then file.data else if cursor <= |file.data| then file.data[cursor..] else []
  }

  function ContentOf(field: Field, at: Cursors): Bytes
  {
    match field
    case DataField(_, value) => value
    case FileField(_, _, _, Buffer(bytes)) => bytes
    case FileField(_, _, _, File(file)) => Sent(file, if file in at then at[file] else 0)
  }

  /** Reading leaves the cursor at the end. */
  function After(field: Field, at: Cursors): Cursors
  {
    if IsFile(field) then at[field.source.file := |field.source.file.data|] else at
  }

  /** The length of the content as the field reports it. */
  function ReportedOf(field: Field): Option<nat>
  {
    match field
    case DataField(_, value) => Some(|value|)
    case FileField(_, _, _, Buffer(bytes)) => Some(|bytes|)
    case FileField(_, _, _, File(file)) => file.Reported()
  }

  predicate IsFile(field: Field) { field.FileField? && field.source.File? }

  ghost function Files(fields: seq<Field>): set<FileObject> { set f | f in fields && IsFile(f) :: f.source.file }

  ghost predicate AllValid(fields: seq<Field>)
    reads Files(fields)
  {
    forall f | f in Files(fields) :: f.Valid()
  }

  ghost function CursorsOf(fields: seq<Field>): Cursors
    reads Files(fields)
  {
    map f | f in Files(fields) :: f.position
  }

  /** Every field knows a length beforehand. */
  predicate AllReported(fields: seq<Field>)
  {
    forall i | 0 <= i < |fields| :: ReportedOf(fields[i]).Some?
  }

  const DASHES: Bytes := [0x2D, 0x2D]
  const CRLF: Bytes := [0x0D, 0x0A]

  /** The encoded body as a function of the fields and of where the cursors stand. */
  function BodyOf(fields: seq<Field>, boundary: Bytes, at: Cursors): Bytes
    decreases |fields|
  {
    if fields == [] then DASHES + boundary + DASHES + CRLF
    else DASHES + boundary + CRLF + RenderedHeaders(fields[0]) + ContentOf(fields[0], at) + CRLF
         + BodyOf(fields[1..], boundary, After(fields[0], at))
  }

  /** Everything but the content: delimiters, headers and line breaks. */
  function Framing(fields: seq<Field>, boundary: Bytes): nat
  {
    if fields == [] then 2 + |boundary| + 4
    else 2 + |boundary| + 2 + |RenderedHeaders(fields[0])| + 2 + Framing(fields[1..], boundary)
  }

  function ContentTotal(fields: seq<Field>, at: Cursors): nat
    decreases |fields|
  {
    if fields == [] then 0 else |ContentOf(fields[0], at)| + ContentTotal(fields[1..], After(fields[0], at))
  }

  function ReportedTotal(fields: seq<Field>): nat
  {
    if fields == [] then 0
    else (if ReportedOf(fields[0]).Some? then ReportedOf(fields[0]).value else 0) + ReportedTotal(fields[1..])
  }

  lemma {:induction false} BodyLength(fields: seq<Field>, boundary: Bytes, at: Cursors)
    ensures |BodyOf(fields, boundary, at)| == Framing(fields, boundary) + ContentTotal(fields, at)
    decreases |fields|
  {
    hide RenderedHeaders, ContentOf, After;
    if fields != [] {
      BodyLength(fields[1..], boundary, After(fields[0], at));
    }
  }

  // ----- the predicted length -----

  /** `get_length` of either kind of field. */
  method GetLength(field: Field) returns (n: Option<nat>)
    requires IsFile(field) ==> field.source.file.Valid()
    modifies if IsFile(field) then {field.source.file} else {}
    ensures IsFile(field) ==> field.source.file.Valid() && field.source.file.position == old(field.source.file.position)
    ensures n == match ReportedOf(field)
                 case None => None
                 case Some(length) => Some(|RenderedHeaders(field)| + length)
  {
    if IsFile(field) {
      var length := field.source.file.PeekLength();
      return if length.None? then None else Some(|RenderedHeaders(field)| + length.value);
    }
    n := Some(|RenderedHeaders(field)| + |ContentOf(field, map[])|);
  }

  lemma TotalsStep(fields: seq<Field>, i: nat, boundary: Bytes)
    requires i < |fields|
    ensures Framing(fields[i..], boundary)
            == 2 + |boundary| + 2 + |RenderedHeaders(fields[i])| + 2 + Framing(fields[i + 1..], boundary)
    ensures ReportedOf(fields[i]).Some? ==>
              ReportedTotal(fields[i..]) == ReportedOf(fields[i]).value + ReportedTotal(fields[i + 1..])
  {
    hide RenderedHeaders, ReportedOf;
    assert fields[i..][0] == fields[i] && fields[i..][1..] == fields[i + 1..];
  }

  lemma TotalsEnd(fields: seq<Field>, boundary: Bytes)
    ensures fields[0..] == fields
    ensures Framing(fields[|fields|..], boundary) == 2 + |boundary| + 4 && ReportedTotal(fields[|fields|..]) == 0
  {
  }

  /** `get_content_length`: known exactly when every field reports a length, and then the length of the body exactly
      when the reported lengths add up to what will be read. */
  method GetContentLength(fields: seq<Field>, boundary: Bytes) returns (n: Option<nat>)
    requires AllValid(fields)
    modifies Files(fields)
    ensures AllValid(fields) && forall f | f in Files(fields) :: f.position == old(f.position)
    ensures n == if AllReported(fields) then Some(Framing(fields, boundary) + ReportedTotal(fields)) else None
    ensures n.Some? ==>
              (n.value == |BodyOf(fields, boundary, old(CursorsOf(fields)))| <==>
               ReportedTotal(fields) == ContentTotal(fields, old(CursorsOf(fields))))
  {
    hide BodyOf, RenderedHeaders, Framing, ReportedTotal, ReportedOf, ContentTotal;
    BodyLength(fields, boundary, CursorsOf(fields));
    TotalsEnd(fields, boundary);
    var length := 0;
    for i := 0 to |fields|
      invariant AllValid(fields) && forall f | f in Files(fields) :: f.position == old(f.position)
      invariant forall j | 0 <= j < i :: ReportedOf(fields[j]).Some?
      invariant length + Framing(fields[i..], boundary) + ReportedTotal(fields[i..])
                == Framing(fields, boundary) + ReportedTotal(fields)
    {
      TotalsStep(fields, i, boundary);
      assert IsFile(fields[i]) ==> fields[i].source.file in Files(fields);
      var fieldLength := GetLength(fields[i]);
      if fieldLength.None? {
        return None;
      }
      length := length + 2 + |boundary| + 2;
      length := length + fieldLength.value;
      length := length + 2;
    }
    n := Some(length + 2 + |boundary| + 4);
  }

  /** A file that reports what reading it from the start gives: in memory, or regular and uncompressed. */
  predicate Honest(field: Field)
  {
    IsFile(field) ==> var file := field.source.file; file.seekable && file.Reported() == Some(|file.data|)
  }

  /** For such files the prediction holds. */
  lemma {:induction false} HonestFieldsAddUp(fields: seq<Field>, at: Cursors)
    requires forall i | 0 <= i < |fields| :: Honest(fields[i])
    ensures AllReported(fields) && ReportedTotal(fields) == ContentTotal(fields, at)
    decreases |fields|
  {
    if fields != [] {
      assert Honest(fields[0]);
      HonestFieldsAddUp(fields[1..], After(fields[0], at));
      forall i | 0 <= i < |fields|
        ensures ReportedOf(fields[i]).Some?
      {
        assert Honest(fields[i]);
      }
    }
  }

  // ----- the streamed body -----

  /** `FileField.render_data` over a file object: rewound if that is possible, then read piece by piece. */
  method ReadAll(file: FileObject) returns (chunks: seq<Bytes>)
    requires file.Valid()
    modifies file
    ensures file.position == |file.data| && Concat(chunks) == Sent(file, old(file.position))
    ensures forall i | 0 <= i < |chunks| :: 1 <= |chunks[i]| <= 65536
  {
    if file.seekable {
      file.Rewind();
    }
    hide Concat;
    ghost var start := file.position;
    chunks := [];
    var chunk := file.Read(CHUNK_SIZE);
    NoChunks(chunk);
    while chunk != []
      invariant file.Valid() && start <= file.position
      invariant Concat(chunks) + chunk == file.data[start..file.position]
      invariant chunk == [] ==> file.position == |file.data|
      invariant |chunk| <= CHUNK_SIZE && forall i | 0 <= i < |chunks| :: 1 <= |chunks[i]| <= CHUNK_SIZE
      decreases |file.data| - file.position, |chunk|
    {
      ConcatSnoc(chunks, chunk);
      chunks := chunks + [chunk];
      ghost var next := file.position;
      chunk := file.Read(CHUNK_SIZE);
      NextSlice(file.data, start, next, file.position);
    }
  }

  lemma NextSlice(data: Bytes, a: nat, b: nat, c: nat)
    requires a <= b <= c <= |data|
    ensures data[a..c] == data[a..b] + data[b..c]
  {
  }

  lemma NoChunks(chunk: Bytes)
    ensures Concat<byte>([]) + chunk == chunk
  {
  }

  /** `iter_chunks`: the chunks make up the body; every file is left at its end. */
  method IterChunks(fields: seq<Field>, boundary: Bytes) returns (chunks: seq<Bytes>)
    requires AllValid(fields)
    modifies Files(fields)
    ensures Concat(chunks) == BodyOf(fields, boundary, old(CursorsOf(fields)))
    ensures AllValid(fields) && forall f | f in Files(fields) :: f.position == |f.data|
  {
    hide RenderedHeaders, BodyOf, Sent;
    chunks := [];
    assert fields[0..] == fields;
    for i := 0 to |fields|
      invariant AllValid(fields)
      invariant forall j | 0 <= j < i && IsFile(fields[j]) ::
                  fields[j].source.file.position == |fields[j].source.file.data|
      invariant Concat(chunks) + BodyOf(fields[i..], boundary, CursorsOf(fields))
                == BodyOf(fields, boundary, old(CursorsOf(fields)))
    {
      ghost var at := CursorsOf(fields);
      assert fields[i..][0] == fields[i] && fields[i..][1..] == fields[i + 1..];
      var content: seq<Bytes> := [];
      if IsFile(fields[i]) {
        assert fields[i].source.file in Files(fields);
        content := ReadAll(fields[i].source.file);
      } else {
        content := [ContentOf(fields[i], map[])];
        assert Concat(content) == ContentOf(fields[i], at);
      }
      assert CursorsOf(fields) == After(fields[i], at);
      FieldChunks(chunks, fields[i..], boundary, at, content);
      chunks := chunks + [DASHES + boundary + CRLF, RenderedHeaders(fields[i])] + content + [CRLF];
    }
    LastDelimiter(fields[|fields|..], boundary, CursorsOf(fields));
    ConcatSnoc(chunks, DASHES + boundary + DASHES + CRLF);
    chunks := chunks + [DASHES + boundary + DASHES + CRLF];
  }

  lemma LastDelimiter(fields: seq<Field>, boundary: Bytes, at: Cursors)
    requires fields == []
    ensures BodyOf(fields, boundary, at) == DASHES + boundary + DASHES + CRLF
  {
  }

  lemma FieldChunks(before: seq<Bytes>, fields: seq<Field>, boundary: Bytes, at: Cursors, content: seq<Bytes>)
    requires fields != [] && Concat(content) == ContentOf(fields[0], at)
    ensures Concat(before + [DASHES + boundary + CRLF, RenderedHeaders(fields[0])] + content + [CRLF])
            + BodyOf(fields[1..], boundary, After(fields[0], at))
            == Concat(before) + BodyOf(fields, boundary, at)
  {
    hide RenderedHeaders, ContentOf, After, Concat;
    var head, rendered := DASHES + boundary + CRLF, RenderedHeaders(fields[0]);
    var two := [head, rendered];
    assert two == [head] + [rendered];
    ConcatSnoc(before, head);
    ConcatSnoc(before + [head], rendered);
    assert before + two == (before + [head]) + [rendered];
    ConcatSplit(before + two, content);
    ConcatSnoc(before + two + content, CRLF);
    RegroupField(Concat(before), head, rendered, Concat(content), BodyOf(fields[1..], boundary, After(fields[0], at)));
  }

  lemma RegroupField(before: Bytes, head: Bytes, rendered: Bytes, content: Bytes, rest: Bytes)
    ensures before + head + rendered + content + CRLF + rest == before + (head + rendered + content + CRLF + rest)
  {
  }

  // ----- iterating again -----

  /** Nothing is left to read of a file that cannot be repositioned. */
  predicate UsedUp(field: Field, at: Cursors)
  {
    IsFile(field) && !field.source.file.seekable ==> ContentOf(field, at) == []
  }

  ghost function AtEnd(fields: seq<Field>): Cursors { map f | f in Files(fields) :: |f.data| }

  predicate ReadsNoMore(fields: seq<Field>, at: Cursors)
  {
    forall i | 0 <= i < |fields| :: UsedUp(fields[i], at)
  }

  lemma AfterUsedUp(field: Field, next: Field, at: Cursors)
    requires UsedUp(field, at)
    ensures UsedUp(next, After(field, at)) <==> UsedUp(next, at)
  {
  }

  /** A second time gives at most as much, and as much exactly if such files had nothing to give. */
  lemma {:induction false} AgainTotal(fields: seq<Field>, at: Cursors, end: Cursors)
    requires forall i | 0 <= i < |fields| && IsFile(fields[i]) ::
               var f := fields[i].source.file; f in end && end[f] == |f.data|
    ensures ContentTotal(fields, end) <= ContentTotal(fields, at)
    ensures ContentTotal(fields, end) == ContentTotal(fields, at) <==> ReadsNoMore(fields, at)
    decreases |fields|
  {
    hide ContentOf, After, UsedUp;
    if fields != [] {
      EndStays(fields[0], end);
      AgainTotal(fields[1..], After(fields[0], at), end);
      AgainContent(fields[0], at, end);
      if UsedUp(fields[0], at) {
        forall i | 0 <= i < |fields[1..]|
          ensures UsedUp(fields[1..][i], After(fields[0], at)) <==> UsedUp(fields[i + 1], at)
        {
          AfterUsedUp(fields[0], fields[i + 1], at);
        }
        assert ReadsNoMore(fields, at) <==> ReadsNoMore(fields[1..], After(fields[0], at)) by {
          assert forall i | 1 <= i < |fields| :: fields[i] == fields[1..][i - 1];
        }
      }
    }
  }

  lemma EndStays(field: Field, end: Cursors)
    requires IsFile(field) ==> field.source.file in end && end[field.source.file] == |field.source.file.data|
    ensures After(field, end) == end
  {
  }

  lemma AgainContent(field: Field, at: Cursors, end: Cursors)
    requires IsFile(field) ==> field.source.file in end && end[field.source.file] == |field.source.file.data|
    ensures |ContentOf(field, end)| <= |ContentOf(field, at)|
    ensures |ContentOf(field, end)| == |ContentOf(field, at)| <==> UsedUp(field, at)
    ensures UsedUp(field, at) ==> ContentOf(field, end) == ContentOf(field, at)
  {
  }

  lemma {:induction false} AgainSame(fields: seq<Field>, boundary: Bytes, at: Cursors, end: Cursors)
    requires forall i | 0 <= i < |fields| && IsFile(fields[i]) ::
               var f := fields[i].source.file; f in end && end[f] == |f.data|
    requires ReadsNoMore(fields, at)
    ensures BodyOf(fields, boundary, end) == BodyOf(fields, boundary, at)
    decreases |fields|
  {
    hide ContentOf, After, UsedUp, RenderedHeaders;
    if fields != [] {
      assert UsedUp(fields[0], at);
      EndStays(fields[0], end);
      AgainContent(fields[0], at, end);
      forall i | 0 <= i < |fields[1..]|
        ensures UsedUp(fields[1..][i], After(fields[0], at))
      {
        assert UsedUp(fields[i + 1], at);
        AfterUsedUp(fields[0], fields[i + 1], at);
      }
      AgainSame(fields[1..], boundary, After(fields[0], at), end);
    }
  }

  /** Iterating again gives the same bytes exactly when every file can be repositioned or had nothing left to read. */
  lemma IterateAgain(fields: seq<Field>, boundary: Bytes, at: Cursors)
    ensures BodyOf(fields, boundary, AtEnd(fields)) == BodyOf(fields, boundary, at) <==> ReadsNoMore(fields, at)
  {
    hide BodyOf, ContentTotal, Framing, ReadsNoMore;
    var end := AtEnd(fields);
    forall i | 0 <= i < |fields| && IsFile(fields[i])
      ensures fields[i].source.file in end
    {
      assert fields[i] in fields && fields[i].source.file in Files(fields);
    }
    BodyLength(fields, boundary, end);
    BodyLength(fields, boundary, at);
    AgainTotal(fields, at, end);
    if ReadsNoMore(fields, at) {
      AgainSame(fields, boundary, at, end);
    }
  }

  // ----- files that report a wrong length -----

  /** One file, predicted and sent: the prediction is off by as much as what the file reports. */
  method SendOne(name: string, file: FileObject, boundary: Bytes) returns (predicted: Option<nat>, chunks: seq<Bytes>)
    requires file.Valid()
    modifies file
    ensures predicted.None? <==> file.Reported().None?
    ensures predicted.Some? ==>
              predicted.value + |Sent(file, old(file.position))| == |Concat(chunks)| + file.Reported().value
  {
    hide BodyOf, RenderedHeaders, Sent, Framing;
    var fields := [FileField(name, None, [], File(file))];
    assert fields[0] in fields && file in Files(fields);
    ghost var at := CursorsOf(fields);
    OneFile(fields, file, at);
    BodyLength(fields, boundary, at);
    predicted := GetContentLength(fields, boundary);
    assert CursorsOf(fields) == at;
    chunks := IterChunks(fields, boundary);
  }

  lemma OneFile(fields: seq<Field>, file: FileObject, at: Cursors)
    requires |fields| == 1 && IsFile(fields[0]) && fields[0].source.file == file && file in at
    ensures Files(fields) == {file}
    ensures AllReported(fields) <==> file.Reported().Some?
    ensures file.Reported().Some? ==> ReportedTotal(fields) == file.Reported().value
    ensures ContentTotal(fields, at) == |Sent(file, at[file])|
  {
    assert fields[1..] == [];
    assert ContentTotal(fields[1..], After(fields[0], at)) == 0 && ReportedTotal(fields[1..]) == 0;
    assert fields[0] in fields;
  }

  /** A pipe has a descriptor of size 0 and cannot be repositioned: its length is predicted, and too small. */
  method SendPipe(name: string, data: Bytes, boundary: Bytes) returns (predicted: Option<nat>, chunks: seq<Bytes>)
    ensures predicted.Some? && predicted.value + |data| == |Concat(chunks)|
  {
    var file := new FileObject(data, false, Some(0));
    assert Sent(file, 0) == data;
    predicted, chunks := SendOne(name, file, boundary);
  }

  /** A compressed file can be repositioned, but its descriptor reports the compressed size. */
  method SendCompressed(name: string, data: Bytes, size: nat, boundary: Bytes)
    returns (predicted: Option<nat>, chunks: seq<Bytes>)
    ensures predicted.Some? && predicted.value + |data| == |Concat(chunks)| + size
  {
    var file := new FileObject(data, true, Some(size));
    predicted, chunks := SendOne(name, file, boundary);
  }

  // ----- the boundary parameter -----

  predicate IsByteSpace(c: char) { c == ' ' || 0x09 <= c as int <= 0x0D }

  /** White space of Python's `bytes.strip`. */
  lemma ByteSpaces(c: char)
    ensures IsByteSpace(c) <==> c in {' ', '\t', '\n', '\r', '\U{0B}', '\U{0C}'}
  {
  }

  predicate IsQuote(c: char) { c == '"' }

  predicate IsSemicolon(c: char) { c == ';' }

  /** `content_type.split(b";")` */
  function Sections(s: string): (r: seq<string>)
    ensures r != []
  {
    if s == "" then [""]
    else if s[0] == ';' then [""] + Sections(s[1..])
    else
      var r := Sections(s[1..]);
      [[s[0]] + r[0]] + r[1..]
  }

  const MEDIA_TYPE := "multipart/form-data"
  const BOUNDARY := "boundary="

  function FirstBoundary(sections: seq<string>): Option<string>
  {
    if sections == [] then None
    else
      var section := Strip(sections[0], IsByteSpace);
      if StartsWith(Lower(section), BOUNDARY) then Some(Strip(section[|BOUNDARY|..], IsQuote))
      else FirstBoundary(sections[1..])
  }

  /** `get_multipart_boundary_from_content_type` */
  function BoundaryOf(contentType: Option<string>): Option<string>
  {
    if contentType.None? || !StartsWith(contentType.value, MEDIA_TYPE) then None
    else if Avoids(contentType.value, IsSemicolon) then None
    else FirstBoundary(Sections(contentType.value))
  }

  /** The sections are the pieces between the semicolons. */
  ghost predicate AreSections(s: string, sections: seq<string>)
  {
    && sections != [] && s == JoinedBySemicolons(sections)
    && forall i | 0 <= i < |sections| :: ';' !in sections[i]
  }

  function JoinedBySemicolons(sections: seq<string>): string
    requires sections != []
  {
    if |sections| == 1 then sections[0] else sections[0] + ";" + JoinedBySemicolons(sections[1..])
  }

  lemma {:induction false} SectionsOf(s: string, sections: seq<string>)
    ensures sections == Sections(s) <==> AreSections(s, sections)
    decreases |s|, |sections|
  {
    SectionsJoin(s);
    if AreSections(s, sections) {
      SectionsBack(sections);
    }
  }

  lemma {:induction false} SectionsJoin(s: string)
    ensures AreSections(s, Sections(s))
  {
    if s != "" {
      SectionsJoin(s[1..]);
      var r := Sections(s[1..]);
      assert s == [s[0]] + s[1..];
      if s[0] == ';' {
        assert ([""] + r)[1..] == r;
      } else {
        var q := [[s[0]] + r[0]] + r[1..];
        assert q[1..] == r[1..] && q[0] == [s[0]] + r[0];
        assert forall i | 1 <= i < |q| :: q[i] == r[i];
      }
    }
  }

  lemma {:induction false} SectionsBack(sections: seq<string>)
    requires sections != [] && forall i | 0 <= i < |sections| :: ';' !in sections[i]
    ensures Sections(JoinedBySemicolons(sections)) == sections
  {
    hide Sections;
    var head := sections[0];
    if |sections| == 1 {
      SectionsPrefix(head, "");
      NoSections();
      assert head + "" == head;
    } else {
      SectionsBack(sections[1..]);
      SectionsCut(head, JoinedBySemicolons(sections[1..]));
    }
  }

  lemma NoSections()
    ensures Sections("") == [""]
  {
  }

  /** A section that names the boundary, in letters of either case. */
  predicate NamesBoundary(section: string)
  {
    StartsWith(Lower(Strip(section, IsByteSpace)), "boundary=")
  }

  /** The first section that names it, if the type is multipart and has sections, gives it. */
  lemma {:induction false} FirstBoundaryIs(sections: seq<string>, i: nat)
    requires i <= |sections| && forall j | 0 <= j < i :: !NamesBoundary(sections[j])
    ensures i == |sections| ==> FirstBoundary(sections).None?
    ensures i < |sections| && NamesBoundary(sections[i]) ==>
              FirstBoundary(sections) == Some(Strip(Strip(sections[i], IsByteSpace)[9..], IsQuote))
    decreases i
  {
    if i > 0 {
      assert !NamesBoundary(sections[0]);
      assert forall j | 0 <= j < i - 1 :: sections[1..][j] == sections[j + 1];
      FirstBoundaryIs(sections[1..], i - 1);
    }
  }

  /** What the parser reads from any content type. */
  lemma BoundaryOfAny(contentType: string, i: nat)
    requires var sections := Sections(contentType);
             i <= |sections| && forall j | 0 <= j < i :: !NamesBoundary(sections[j])
    ensures var sections := Sections(contentType);
            var multipart := StartsWith(contentType, "multipart/form-data");
            && (!multipart || i == |sections| ==> BoundaryOf(Some(contentType)).None?)
            && (multipart && i < |sections| && NamesBoundary(sections[i]) ==>
                  BoundaryOf(Some(contentType)) == Some(Strip(Strip(sections[i], IsByteSpace)[9..], IsQuote)))
    ensures BoundaryOf(None).None?
  {
    hide Sections, Strip;
    FirstBoundaryIs(Sections(contentType), i);
    if Avoids(contentType, IsSemicolon) && StartsWith(contentType, MEDIA_TYPE) {
      FirstSection(contentType);
      OnlySection(contentType);
    }
  }

  lemma OnlySection(contentType: string)
    requires Avoids(contentType, IsSemicolon) && StartsWith(contentType, MEDIA_TYPE)
    ensures Sections(contentType) == [contentType] && !NamesBoundary(contentType)
  {
    assert ';' !in contentType;
    SectionsBack([contentType]);
    var s := StripLeft(contentType, IsByteSpace);
    assert contentType[0] == 'm' && s == contentType;
    StrippedFront(s, IsByteSpace);
    assert "boundary="[0] == 'b';
  }

  lemma {:induction false} StrippedFront(s: string, p: char -> bool)
    ensures StripRight(s, p) <= s
  {
    if s != "" && p(s[|s| - 1]) {
      StrippedFront(s[..|s| - 1], p);
    }
  }

  /** `"multipart/form-data; boundary=%s"` */
  function ContentType(boundary: string): string { MEDIA_TYPE + "; " + BOUNDARY + boundary }

  lemma {:induction false} SectionsPrefix(a: string, t: string)
    requires Avoids(a, IsSemicolon)
    ensures Sections(a + t) == [a + Sections(t)[0]] + Sections(t)[1..]
  {
    if a == "" {
      assert a + t == t && a + Sections(t)[0] == Sections(t)[0];
    } else {
      SectionsPrefix(a[1..], t);
      assert (a + t)[0] == a[0] && (a + t)[1..] == a[1..] + t;
      assert [a[0]] + (a[1..] + Sections(t)[0]) == a + Sections(t)[0];
    }
  }

  lemma {:induction false} FirstSection(b: string)
    ensures |Sections(b)[0]| < |b| || Sections(b)[0] == b
    ensures Sections(b)[0] == b <==> Avoids(b, IsSemicolon)
  {
    if b != "" {
      FirstSection(b[1..]);
      if b[0] != ';' {
        var x := Sections(b[1..])[0];
        assert ([b[0]] + x)[1..] == x && b == [b[0]] + b[1..];
      }
    }
  }

  /** The section that holds the parameter, whatever its value. */
  lemma BoundarySection(x: string)
    ensures var section := Strip(" " + BOUNDARY + x, IsByteSpace);
            && section == BOUNDARY + StripRight(x, IsByteSpace)
            && StartsWith(Lower(section), BOUNDARY)
  {
    hide StripRight, Lower;
    var s, t := " " + BOUNDARY + x, BOUNDARY + x;
    assert s[1..] == t && s[0] == ' ';
    assert t[0] == 'b';
    StripLeftShape(t, IsByteSpace);
    assert StripLeft(s, IsByteSpace) == t;
    assert BOUNDARY[|BOUNDARY| - 1] == '=';
    StripRightPrefix(BOUNDARY, x, IsByteSpace);
    LowerBoundary(StripRight(x, IsByteSpace));
  }

  lemma LowerBoundary(y: string)
    ensures StartsWith(Lower(BOUNDARY + y), BOUNDARY)
  {
    assert forall i | 0 <= i < |BOUNDARY| :: LowerChar(BOUNDARY[i]) == BOUNDARY[i];
  }

  lemma SectionsCut(a: string, t: string)
    requires Avoids(a, IsSemicolon)
    ensures Sections(a + ";" + t) == [a] + Sections(t)
  {
    var u := ";" + t;
    SectionsPrefix(a, u);
    assert u[1..] == t && a + "" == a && a + u == a + ";" + t;
  }

  lemma MediaTypeSection(b: string)
    ensures Sections(ContentType(b)) == [MEDIA_TYPE, " " + BOUNDARY + Sections(b)[0]] + Sections(b)[1..]
  {
    hide Sections;
    SectionsPrefix(" " + BOUNDARY, b);
    SectionsCut(MEDIA_TYPE, " " + BOUNDARY + b);
    assert MEDIA_TYPE + "; " + BOUNDARY + b == MEDIA_TYPE + ";" + (" " + BOUNDARY + b);
  }

  lemma MediaTypeIsNoBoundary()
    ensures Strip(MEDIA_TYPE, IsByteSpace) == MEDIA_TYPE && !StartsWith(Lower(MEDIA_TYPE), BOUNDARY)
  {
    StripShape(MEDIA_TYPE, IsByteSpace);
    assert Lower(MEDIA_TYPE)[0] == 'm' && BOUNDARY[0] == 'b';
  }

  /** What the parser reads back from a printed content type. */
  lemma BoundaryRead(b: string)
    ensures BoundaryOf(Some(ContentType(b))) == Some(Strip(StripRight(Sections(b)[0], IsByteSpace), IsQuote))
  {
    hide Sections, Strip, StripRight, Lower;
    var sections := Sections(ContentType(b));
    MediaTypeSection(b);
    MediaTypeIsNoBoundary();
    BoundarySection(Sections(b)[0]);
    assert ContentType(b)[|MEDIA_TYPE|] == ';' && StartsWith(ContentType(b), MEDIA_TYPE);
    assert sections[0] == MEDIA_TYPE && sections[1..][0] == " " + BOUNDARY + Sections(b)[0];
    assert FirstBoundary(sections) == FirstBoundary(sections[1..]);
    var section := Strip(sections[1], IsByteSpace);
    assert section[|BOUNDARY|..] == StripRight(Sections(b)[0], IsByteSpace);
  }

  /** The boundary printed into the content type is recovered exactly when it has no semicolon, does not end
      in white space and neither starts nor ends with a quote. */
  lemma BoundaryRecovered(b: string)
    ensures BoundaryOf(Some(ContentType(b))) == Some(b) <==>
            && Avoids(b, IsSemicolon)
            && (b == "" || (!IsByteSpace(b[|b| - 1]) && b[0] != '"' && b[|b| - 1] != '"'))
  {
    hide Strip, StripRight, Sections, BoundaryOf;
    var first := Sections(b)[0];
    BoundaryRead(b);
    FirstSection(b);
    StripRightShape(first, IsByteSpace);
    StripShape(StripRight(first, IsByteSpace), IsQuote);
  }
}
