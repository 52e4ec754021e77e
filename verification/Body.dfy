/** Reading a response body: `Response.iter_raw`, `iter_bytes`, `read` and `close` of httpxp/_models.py. */
module Body {
  import opened Prelude
  import opened Codecs
  import opened Chunker

  datatype BodyError = StreamConsumed | StreamClosed | ReadError | DecodingError

  /** Empty network chunks are dropped before they reach the decoder. */
  function NonEmpty(chunks: seq<Bytes>): seq<Bytes>
  {
    if chunks == [] then []
    else Last(chunks[0]) + NonEmpty(chunks[1..])
  }

  lemma {:induction false} NonEmptySnoc(chunks: seq<Bytes>, x: Bytes)
    ensures NonEmpty(chunks + [x]) == NonEmpty(chunks) + Last(x)
  {
    if chunks == [] {
      assert chunks + [x] == [x];
      assert NonEmpty([x]) == Last(x) + NonEmpty([]);
    } else {
      assert (chunks + [x])[1..] == chunks[1..] + [x];
      NonEmptySnoc(chunks[1..], x);
    }
  }

  lemma {:induction false} NonEmptyBytes(chunks: seq<Bytes>)
    ensures Concat(NonEmpty(chunks)) == Concat(chunks)
  {
    if chunks != [] {
      NonEmptyBytes(chunks[1..]);
      ConcatSplit(Last(chunks[0]), NonEmpty(chunks[1..]));
      assert Concat(Last(chunks[0])) == chunks[0];
    }
  }

  /** What reading the whole stream comes to: the decoded body, or the error that stops it. */
  ghost function Streamed<S>(codec: Codec<S>, state: S, chunks: seq<Bytes>, broken: bool): Result<Bytes, BodyError>
  {
    if DecodeAll(codec, state, NonEmpty(chunks)).None? then Err(DecodingError)
    else if broken then Err(ReadError)
    else
      match Run(codec, state, NonEmpty(chunks))
      case None => Err(DecodingError)
      case Some(body) => Ok(body)
  }

  /** What the decoder gives for each chunk, up to the first it fails at. */
  ghost function Outputs<S>(codec: Codec<S>, state: S, chunks: seq<Bytes>): seq<Bytes>
  {
    if chunks == [] then []
    else
      match codec.decode(state, chunks[0])
      case None => []
      case Some((s, out)) => [out] + Outputs(codec, s, chunks[1..])
  }

  /** What streaming with no chunk size gives out: whatever each network chunk is decoded to, and what the flush
      gives, leaving out what is empty. */
  ghost function Pieces<S>(codec: Codec<S>, state: S, chunks: seq<Bytes>): seq<Bytes>
  {
    match DecodeAll(codec, state, NonEmpty(chunks))
    case None => []
    case Some((s, _)) =>
      match codec.flush(s)
      case None => []
      case Some(last) => NonEmpty(Outputs(codec, state, NonEmpty(chunks)) + [last])
  }

  lemma {:induction false} OutputsSnoc<S>(codec: Codec<S>, state: S, chunks: seq<Bytes>, x: Bytes)
    ensures DecodeAll(codec, state, chunks).Some? ==>
              var s := DecodeAll(codec, state, chunks).value.0;
              codec.decode(s, x).Some? ==>
                Outputs(codec, state, chunks + [x]) == Outputs(codec, state, chunks) + [codec.decode(s, x).value.1]
  {
    if chunks == [] {
      assert chunks + [x] == [x];
      assert codec.decode(state, x).Some? ==>
          Outputs(codec, codec.decode(state, x).value.0, [x][1..]) == [];
    } else if codec.decode(state, chunks[0]).Some? {
      assert (chunks + [x])[1..] == chunks[1..] + [x];
      OutputsSnoc(codec, codec.decode(state, chunks[0]).value.0, chunks[1..], x);
    }
  }

  /** A body cut as `iter_bytes(size)` gives it out once it is cached. */
  function Cut(body: Bytes, size: Option<nat>): seq<Bytes>
    requires size.Some? ==> size.value >= 1
  {
    if size.None? then Last(body) else Slices(body, size.value)
  }

  /** The cached chunks: they make up the body, none is empty, there is at most one if no size is given, and
      with a size all but the last are full. */
  lemma CutShape(body: Bytes, size: Option<nat>)
    requires size.Some? ==> size.value >= 1
    ensures var chunks := Cut(body, size);
            && Concat(chunks) == body
            && (forall i | 0 <= i < |chunks| :: chunks[i] != [] && (size.Some? ==> |chunks[i]| <= size.value))
            && (size.None? ==> |chunks| <= 1)
            && (size.Some? ==> forall i | 0 <= i < |chunks| - 1 :: |chunks[i]| == size.value)
  {
    assert Concat([body]) == body;
    if size.Some? {
      SlicesShape(body, size.value);
      assert body == [] ==> Slices(body, size.value) == [];
    }
  }

  /** The chunks of a body from `i` on. */
  lemma CutFrom(body: Bytes, n: nat, i: nat)
    requires n >= 1 && i < |body|
    ensures var end := if i + n < |body| then i + n else |body|;
            Slices(body[i..], n) == [body[i..end]] + Slices(body[end..], n)
  {
    var rest := body[i..];
    if |rest| > n {
      assert rest[..n] == body[i..i + n] && rest[n..] == body[i + n..];
    } else {
      assert body[|body|..] == [] && rest == body[i..|body|];
    }
  }

  function TotalLength(chunks: seq<Bytes>): nat { |Concat(chunks)| }

  class Response<S> {
    const stream: seq<Bytes>   // what the network delivers
    const broken: bool         // and whether it then fails instead of ending
    const decoder: ContentDecoder<S>
    var content: Option<Bytes>
    var isClosed: bool
    var isStreamConsumed: bool
    var numBytesDownloaded: nat

    constructor (stream: seq<Bytes>, broken: bool, codec: Codec<S>)
      ensures this.stream == stream && this.broken == broken && fresh(decoder)
      ensures decoder.codec == codec && decoder.state == codec.init
      ensures content.None? && !isClosed && !isStreamConsumed
    {
      this.stream, this.broken := stream, broken;
      decoder := new ContentDecoder(codec);
      content, isClosed, isStreamConsumed, numBytesDownloaded := None, false, false, 0;
    }

    method Close()
      modifies this`isClosed
      ensures isClosed
    {
      if !isClosed {
        isClosed := true;
      }
    }

    /** The streaming branch of `iter_bytes`, run to its end over `iter_raw`. */
    method StreamBytes(size: Option<nat>) returns (r: Result<seq<Bytes>, BodyError>)
      requires size.Some? ==> size.value >= 1
      modifies this`isClosed, this`isStreamConsumed, this`numBytesDownloaded, decoder
      ensures old(isStreamConsumed) ==> r == Err(StreamConsumed)
      ensures !old(isStreamConsumed) && old(isClosed) ==> r == Err(StreamClosed)
      ensures !old(isStreamConsumed) && !old(isClosed) ==>
                && isStreamConsumed
                && (isClosed <==> !broken && DecodeAll(decoder.codec, old(decoder.state), NonEmpty(stream)).Some?)
                && (match Streamed(decoder.codec, old(decoder.state), stream, broken)
                    case Err(e) => r == Err(e)
                    case Ok(body) =>
                      && r.Ok? && Concat(r.value) == body && numBytesDownloaded == TotalLength(stream)
                      && r.value == match size
                                    case Some(n) => Slices(body, n)
                                    case None => Pieces(decoder.codec, old(decoder.state), stream))
    {
      if isStreamConsumed {
        return Err(StreamConsumed);
      }
      if isClosed {
        return Err(StreamClosed);
      }
      isStreamConsumed := true;
      hide NonEmpty, DecodeAll, Concat, Slices, AllLength, Run, TotalLength, Outputs;
      var chunker := new Chunker<byte>(size);
      var given, out := StreamRaw(chunker);
      if given.None? {
        return Err(DecodingError);
      }
      if broken {
        return Err(ReadError);
      }
      Close();
      var decoded := decoder.Flush();
      if decoded.None? {
        return Err(DecodingError);
      }
      ghost var held := chunker.buffer.data;
      var chunks := chunker.Decode(decoded.value);
      GivenMore(given.value, held, decoded.value, chunks, chunker.buffer.data);
      ghost var tail := chunker.buffer.data;
      var rest := chunker.Flush();
      GivenLast(given.value + chunks, tail);
      if size.Some? {
        FullChunks(given.value, chunks, size.value);
        SlicesUnique(given.value + chunks, tail, size.value);
      }
      if size.None? {
        NonEmptySnoc(Outputs(decoder.codec, old(decoder.state), NonEmpty(stream)), decoded.value);
        assert rest == [];
      }
      r := Ok(given.value + chunks + rest);
    }

    /** The loop over `iter_raw`: the chunks given out before the flush, None for a decoding error. */
    method StreamRaw(chunker: Chunker<byte>) returns (given: Option<seq<Bytes>>, ghost out: Bytes)
      requires chunker.Valid() && chunker.buffer.data == []
      modifies this`numBytesDownloaded, decoder, chunker.buffer
      ensures chunker.Valid()
      ensures given.None? ==> DecodeAll(decoder.codec, old(decoder.state), NonEmpty(stream)).None?
      ensures given.Some? ==>
                && DecodeAll(decoder.codec, old(decoder.state), NonEmpty(stream)) == Some((decoder.state, out))
                && Concat(given.value) + chunker.buffer.data == out
                && (chunker.size.Some? ==> AllLength(given.value, chunker.size.value))
                && (chunker.size.None? ==>
                      given.value == NonEmpty(Outputs(decoder.codec, old(decoder.state), NonEmpty(stream))))
                && numBytesDownloaded == TotalLength(stream)
    {
      hide NonEmpty, DecodeAll, Concat, AllLength, TotalLength, Outputs;
      numBytesDownloaded := 0;
      var raw := new Chunker<byte>(None);
      var chunks: seq<Bytes> := [];
      out := [];
      NothingRead(decoder.codec, decoder.state, stream);

      for i := 0 to |stream|
        invariant fresh(raw) && fresh(raw.buffer)
        invariant raw.size.None? && raw.Valid() && chunker.Valid()
        invariant numBytesDownloaded == TotalLength(stream[..i])
        invariant DecodeAll(decoder.codec, old(decoder.state), NonEmpty(stream[..i])) == Some((decoder.state, out))
        invariant Concat(chunks) + chunker.buffer.data == out
        invariant chunker.size.Some? ==> AllLength(chunks, chunker.size.value)
        invariant chunker.size.None? ==>
                    chunks == NonEmpty(Outputs(decoder.codec, old(decoder.state), NonEmpty(stream[..i])))
      {
        ReadOne(decoder.codec, old(decoder.state), stream, i);
        numBytesDownloaded := numBytesDownloaded + |stream[i]|;
        var pieces := raw.Decode(stream[i]);
        if pieces != [] {
          var decoded := decoder.Decode(pieces[0]);
          if decoded.None? {
            DecodeStops(decoder.codec, old(decoder.state), stream, i + 1);
            return None, out;
          }
          ghost var held := chunker.buffer.data;
          var more := chunker.Decode(decoded.value);
          GivenMore(chunks, held, decoded.value, more, chunker.buffer.data);
          OutputsOne(decoder.codec, old(decoder.state), stream, i);
          if chunker.size.Some? {
            FullChunks(chunks, more, chunker.size.value);
          }
          chunks := chunks + more;
          out := out + decoded.value;
        }
      }
      assert stream[..|stream|] == stream;
      given := Some(chunks);
    }

    /** `iter_bytes`, run to its end: from the cache, or from the stream. */
    method IterBytes(size: Option<nat>) returns (r: Result<seq<Bytes>, BodyError>)
      requires size.Some? ==> size.value >= 1
      modifies this`isClosed, this`isStreamConsumed, this`numBytesDownloaded, decoder
      ensures old(content).Some? ==> r == Ok(Cut(content.value, size)) && isClosed == old(isClosed)
      ensures old(content).None? && old(isStreamConsumed) ==> r == Err(StreamConsumed)
      ensures old(content).None? && !old(isStreamConsumed) && old(isClosed) ==> r == Err(StreamClosed)
      ensures old(content).None? && !old(isStreamConsumed) && !old(isClosed) ==>
                (match Streamed(decoder.codec, old(decoder.state), stream, broken)
                 case Err(e) => r == Err(e)
                 case Ok(body) =>
                   && isClosed && r.Ok? && Concat(r.value) == body
                   && r.value == if size.Some? then Cut(body, size)
                                 else Pieces(decoder.codec, old(decoder.state), stream))
    {
      if content.Some? {
        var chunks := CachedChunks(content.value, size);
        return Ok(chunks);
      }
      r := StreamBytes(size);
    }

    /** `read`: the whole body, cached from then on. */
    method Read() returns (r: Result<Bytes, BodyError>)
      modifies this, decoder
      ensures old(content).Some? ==> content == old(content) && r == Ok(content.value)
      ensures old(content).None? && old(isStreamConsumed) ==> r == Err(StreamConsumed) && content.None?
      ensures old(content).None? && !old(isStreamConsumed) && old(isClosed) ==> r == Err(StreamClosed) && content.None?
      ensures old(content).None? && !old(isStreamConsumed) && !old(isClosed) ==>
                && r == Streamed(decoder.codec, old(decoder.state), stream, broken)
                && (r.Ok? ==> isClosed && content == Some(r.value))
                && (r.Err? ==> content.None?)
    {
      if content.None? {
        var chunks := IterBytes(None);
        if chunks.Err? {
          return Err(chunks.error);
        }
        content := Some(Concat(chunks.value));
      }
      r := Ok(content.value);
    }
  }

  /** The cached branch of `iter_bytes`: with no size, the length of the content is the size. */
  method CachedChunks(content: Bytes, size: Option<nat>) returns (chunks: seq<Bytes>)
    requires size.Some? ==> size.value >= 1
    ensures chunks == Cut(content, size)
  {
    var chunkSize := if size.None? then |content| else size.value;
    var step := if chunkSize > 1 then chunkSize else 1;
    hide Slices;
    chunks := [];
    var i := 0;
    assert content[0..] == content;
    while i < |content|
      invariant 0 <= i <= |content|
      invariant chunks + Slices(content[i..], step) == Slices(content, step)
    {
      CutFrom(content, step, i);
      var end := if i + chunkSize < |content| then i + chunkSize else |content|;
      chunks := chunks + [content[i..end]];
      i := end;
    }
    WholeSlice(content, step);
  }

  lemma WholeSlice(body: Bytes, n: nat)
    requires n >= 1
    ensures Slices(body[|body|..], n) == [] && (|body| <= n ==> Slices(body, n) == Last(body))
  {
  }

  lemma NothingRead<S>(codec: Codec<S>, state: S, stream: seq<Bytes>)
    ensures NonEmpty(stream[..0]) == [] && DecodeAll(codec, state, []) == Some((state, []))
    ensures NonEmpty(Outputs(codec, state, [])) == [] && TotalLength(stream[..0]) == 0
    ensures Concat<byte>([]) == [] && forall n :: AllLength<byte>([], n)
  {
  }

  /** What one more network chunk does to the decoded output so far. */
  lemma ReadOne<S>(codec: Codec<S>, state: S, stream: seq<Bytes>, i: nat)
    requires i < |stream|
    ensures TotalLength(stream[..i + 1]) == TotalLength(stream[..i]) + |stream[i]|
    ensures stream[i] == [] ==> NonEmpty(stream[..i + 1]) == NonEmpty(stream[..i])
    ensures stream[i] != [] ==>
              DecodeAll(codec, state, NonEmpty(stream[..i + 1])) ==
              match DecodeAll(codec, state, NonEmpty(stream[..i]))
              case None => None
              case Some((s1, out)) =>
                match codec.decode(s1, stream[i])
                case None => None
                case Some((s2, y)) => Some((s2, out + y))
  {
    hide DecodeAll;
    assert stream[..i + 1] == stream[..i] + [stream[i]];
    ConcatSnoc(stream[..i], stream[i]);
    NonEmptySnoc(stream[..i], stream[i]);
    if stream[i] == [] {
      assert NonEmpty(stream[..i]) + [] == NonEmpty(stream[..i]);
    } else {
      DecodeAllSnoc(codec, state, NonEmpty(stream[..i]), stream[i]);
    }
  }

  lemma OutputsOne<S>(codec: Codec<S>, state: S, stream: seq<Bytes>, i: nat)
    requires i < |stream| && stream[i] != [] && DecodeAll(codec, state, NonEmpty(stream[..i])).Some?
    ensures var s := DecodeAll(codec, state, NonEmpty(stream[..i])).value.0;
            codec.decode(s, stream[i]).Some? ==>
              NonEmpty(Outputs(codec, state, NonEmpty(stream[..i + 1])))
              == NonEmpty(Outputs(codec, state, NonEmpty(stream[..i]))) + Last(codec.decode(s, stream[i]).value.1)
  {
    hide DecodeAll, NonEmpty;
    assert stream[..i + 1] == stream[..i] + [stream[i]];
    NonEmptySnoc(stream[..i], stream[i]);
    var chunks := NonEmpty(stream[..i]);
    OutputsSnoc(codec, state, chunks, stream[i]);
    var s := DecodeAll(codec, state, chunks).value.0;
    if codec.decode(s, stream[i]).Some? {
      NonEmptySnoc(Outputs(codec, state, chunks), codec.decode(s, stream[i]).value.1);
    }
  }

  lemma GivenMore(given: seq<Bytes>, held: Bytes, more: Bytes, chunks: seq<Bytes>, left: Bytes)
    requires Concat(chunks) + left == held + more || (held == [] && left == [] && chunks == Last(more))
    ensures Concat(given + chunks) + left == Concat(given) + held + more
  {
    ConcatSplit(given, chunks);
    assert Concat(Last(more)) == more;
    assert Concat(given) + Concat(chunks) + left == Concat(given) + (Concat(chunks) + left);
    assert Concat(given) + held + more == Concat(given) + (held + more);
  }

  lemma FullChunks(given: seq<Bytes>, chunks: seq<Bytes>, n: nat)
    requires AllLength(given, n) && AllLength(chunks, n)
    ensures AllLength(given + chunks, n)
  {
  }

  lemma GivenLast(given: seq<Bytes>, tail: Bytes)
    ensures Concat(given + Last(tail)) == Concat(given) + tail
  {
    ConcatSplit(given, Last(tail));
    assert Concat(Last(tail)) == tail;
  }

  /** A decoder that has failed is not asked again. */
  lemma DecodeStops<S>(codec: Codec<S>, state: S, stream: seq<Bytes>, i: nat)
    requires i <= |stream| && DecodeAll(codec, state, NonEmpty(stream[..i])).None?
    ensures DecodeAll(codec, state, NonEmpty(stream)).None?
    decreases |stream| - i
  {
    hide DecodeAll, NonEmpty;
    if i < |stream| {
      ReadOne(codec, state, stream, i);
      DecodeStops(codec, state, stream, i + 1);
    } else {
      assert stream[..i] == stream;
    }
  }

  /** Streaming agrees with the cache: with a decoder whose output does not depend on the cutting, two
      unbroken streams of the same bytes come to the same body, so `iter_bytes(n)` over either one gives
      what `read` on the other and slicing its content gives. */
  lemma {:induction false} StreamingAgreesWithCache<S>(codec: Codec<S>, f: Bytes -> Option<Bytes>,
                                                        a: seq<Bytes>, b: seq<Bytes>)
    requires CutFree(codec, f) && Concat(a) == Concat(b)
    ensures Streamed(codec, codec.init, a, false) == Streamed(codec, codec.init, b, false)
    ensures Streamed(codec, codec.init, a, false)
              == match f(Concat(a)) case None => Err(DecodingError) case Some(body) => Ok(body)
  {
    NonEmptyBytes(a);
    NonEmptyBytes(b);
    assert Run(codec, codec.init, NonEmpty(a)) == f(Concat(NonEmpty(a)));
    assert Run(codec, codec.init, NonEmpty(b)) == f(Concat(NonEmpty(b)));
  }
}
