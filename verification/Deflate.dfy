/** `DeflateDecoder` of httpxp/_decoders.py: zlib first, and raw deflate if zlib refuses the first chunk. */
module Deflate {
  import opened Prelude
  import opened Codecs

  /** The decompressor in use; `Fresh` is an untouched zlib one, with the first attempt still to come. */
  datatype State<Z, R> = Fresh | Zlib(z: Z) | Raw(r: R)

  /** What a decompressor makes of some data, as a step of the decoder. */
  function Step<S, T>(r: Option<(S, Bytes)>, wrap: S -> T): Option<(T, Bytes)>
  {
    match r
    case None => None
    case Some((s, out)) => Some((wrap(s), out))
  }

  function Decoded<Z, R>(zlib: Codec<Z>, raw: Codec<R>, s: State<Z, R>, data: Bytes): Option<(State<Z, R>, Bytes)>
  {
    match s
    case Fresh =>
      if Accepts(zlib, data) then Step(zlib.decode(zlib.init, data), z => Zlib(z))
      else Step(raw.decode(raw.init, data), r => Raw(r))
    case Zlib(z) => Step(zlib.decode(z, data), z => Zlib(z))
    case Raw(r) => Step(raw.decode(r, data), r => Raw(r))
  }

  function Flushed<Z, R>(zlib: Codec<Z>, raw: Codec<R>, s: State<Z, R>): Option<Bytes>
  {
    match s
    case Fresh => zlib.flush(zlib.init)
    case Zlib(z) => zlib.flush(z)
    case Raw(r) => raw.flush(r)
  }

  function DeflateCodec<Z, R>(zlib: Codec<Z>, raw: Codec<R>): Codec<State<Z, R>>
  {
    Codec(Fresh, (s, data) => Decoded(zlib, raw, s, data), s => Flushed(zlib, raw, s))
  }

  /** A new zlib decompressor does not refuse this chunk. */
  predicate Accepts<Z>(zlib: Codec<Z>, data: Bytes) { zlib.decode(zlib.init, data).Some? }

  // ----- the object -----

  class DeflateDecoder<Z, R> {
    const zlib: Codec<Z>
    const raw: Codec<R>
    var firstAttempt: bool
    var usesRaw: bool
    var zlibState: Z
    var rawState: R

    /** Before the first attempt the decompressor is untouched. */
    ghost predicate Valid()
      reads this
    {
      firstAttempt ==> !usesRaw && zlibState == zlib.init
    }

    function Abstract(): State<Z, R>
      reads this
    {
      if firstAttempt then Fresh else if usesRaw then Raw(rawState) else Zlib(zlibState)
    }

    constructor (zlib: Codec<Z>, raw: Codec<R>)
      ensures Valid() && this.zlib == zlib && this.raw == raw && Abstract() == Fresh
    {
      this.zlib, this.raw := zlib, raw;
      firstAttempt, usesRaw, zlibState, rawState := true, false, zlib.init, raw.init;
    }

    /** None for DecodingError. */
    method Decode(data: Bytes) returns (r: Option<Bytes>)
      requires Valid()
      modifies this
      ensures Valid() && !firstAttempt
      ensures match Decoded(zlib, raw, old(Abstract()), data)
              case None => r == None
              case Some((s, out)) => r == Some(out) && Abstract() == s
      decreases firstAttempt
    {
      var wasFirstAttempt := firstAttempt;
      firstAttempt := false;
      if usesRaw {
        match raw.decode(rawState, data)
        case None => return None;
        case Some((s, out)) =>
          rawState := s;
          return Some(out);
      }
      match zlib.decode(zlibState, data)
      case Some((s, out)) =>
        zlibState := s;
        r := Some(out);
      case None =>
        if wasFirstAttempt {
          usesRaw, rawState := true, raw.init;
          r := Decode(data);
        } else {
          r := None;
        }
    }

    method Flush() returns (r: Option<Bytes>)
      requires Valid()
      ensures r == Flushed(zlib, raw, Abstract())
    {
      r := if usesRaw then raw.flush(rawState) else zlib.flush(zlibState);
    }
  }

  // ----- whole bodies -----

  lemma {:induction false} StaysZlib<Z, R>(zlib: Codec<Z>, raw: Codec<R>, z: Z, chunks: seq<Bytes>)
    ensures Run(DeflateCodec(zlib, raw), Zlib(z), chunks) == Run(zlib, z, chunks)
    decreases |chunks|
  {
    if chunks != [] {
      RunStep(DeflateCodec(zlib, raw), Zlib(z), chunks);
      RunStep(zlib, z, chunks);
      if zlib.decode(z, chunks[0]).Some? {
        StaysZlib(zlib, raw, zlib.decode(z, chunks[0]).value.0, chunks[1..]);
      }
    }
  }

  lemma {:induction false} StaysRaw<Z, R>(zlib: Codec<Z>, raw: Codec<R>, r: R, chunks: seq<Bytes>)
    ensures Run(DeflateCodec(zlib, raw), Raw(r), chunks) == Run(raw, r, chunks)
    decreases |chunks|
  {
    if chunks != [] {
      RunStep(DeflateCodec(zlib, raw), Raw(r), chunks);
      RunStep(raw, r, chunks);
      if raw.decode(r, chunks[0]).Some? {
        StaysRaw(zlib, raw, raw.decode(r, chunks[0]).value.0, chunks[1..]);
      }
    }
  }

  /** The first chunk alone decides which of the two formats the whole body is read in. */
  lemma FirstChunkDecides<Z, R>(zlib: Codec<Z>, raw: Codec<R>, chunks: seq<Bytes>)
    ensures Run(DeflateCodec(zlib, raw), Fresh, chunks)
            == if chunks == [] || Accepts(zlib, chunks[0]) then Run(zlib, zlib.init, chunks)
               else Run(raw, raw.init, chunks)
  {
    if chunks != [] {
      RunStep(DeflateCodec(zlib, raw), Fresh, chunks);
      RunStep(zlib, zlib.init, chunks);
      RunStep(raw, raw.init, chunks);
      if Accepts(zlib, chunks[0]) {
        StaysZlib(zlib, raw, zlib.decode(zlib.init, chunks[0]).value.0, chunks[1..]);
      } else if raw.decode(raw.init, chunks[0]).Some? {
        StaysRaw(zlib, raw, raw.decode(raw.init, chunks[0]).value.0, chunks[1..]);
      }
    }
  }

  /** Chunks as a response hands them to its decoder. */
  predicate NoneEmpty(chunks: seq<Bytes>) { forall i | 0 <= i < |chunks| :: chunks[i] != [] }

  /** Two cuttings of a body come to the same. */
  ghost predicate Agree<S>(codec: Codec<S>, a: seq<Bytes>, b: seq<Bytes>)
  {
    NoneEmpty(a) && NoneEmpty(b) && Concat(a) == Concat(b) ==> Run(codec, codec.init, a) == Run(codec, codec.init, b)
  }

  /** zlib judges a body by its first bytes as it does by all of it, or the two formats read it alike. */
  ghost predicate Judged<Z>(zlib: Codec<Z>, f: Bytes -> Option<Bytes>, g: Bytes -> Option<Bytes>,
                            start: Bytes, rest: Bytes)
  {
    (Accepts(zlib, start) <==> Accepts(zlib, start + rest)) || f(start + rest) == g(start + rest)
  }

  lemma RunOf<Z, R>(zlib: Codec<Z>, raw: Codec<R>, f: Bytes -> Option<Bytes>, g: Bytes -> Option<Bytes>,
                    chunks: seq<Bytes>)
    requires CutFree(zlib, f) && CutFree(raw, g)
    ensures Run(DeflateCodec(zlib, raw), Fresh, chunks)
            == if chunks == [] || Accepts(zlib, chunks[0]) then f(Concat(chunks)) else g(Concat(chunks))
  {
    FirstChunkDecides(zlib, raw, chunks);
    assert Run(zlib, zlib.init, chunks) == f(Concat(chunks));
    assert Run(raw, raw.init, chunks) == g(Concat(chunks));
  }

  lemma Cuttings(start: Bytes, rest: Bytes)
    requires start != []
    ensures var whole, cut := [start + rest], if rest == [] then [start] else [start, rest];
            && NoneEmpty(whole) && NoneEmpty(cut) && Concat(whole) == Concat(cut) == start + rest
  {
    assert Concat([start + rest]) == start + rest && Concat([start]) == start;
    assert [start, rest][1..] == [rest] && Concat([rest]) == rest;
  }

  /** The decoded body does not depend on how the network cuts it exactly if zlib judges every body by any start of it
      as it judges the whole, apart from bodies both formats read alike. */
  lemma DeflateIsCutFreeIff<Z, R>(zlib: Codec<Z>, raw: Codec<R>, f: Bytes -> Option<Bytes>, g: Bytes -> Option<Bytes>)
    requires CutFree(zlib, f) && CutFree(raw, g)
    ensures (forall a, b :: Agree(DeflateCodec(zlib, raw), a, b)) <==>
            forall start, rest :: start != [] ==> Judged(zlib, f, g, start, rest)
  {
    hide Run, CutFree, Accepts;
    var codec := DeflateCodec(zlib, raw);
    if forall a, b :: Agree(codec, a, b) {
      forall start: Bytes, rest: Bytes | start != []
        ensures Judged(zlib, f, g, start, rest)
      {
        Cuttings(start, rest);
        var whole, cut := [start + rest], if rest == [] then [start] else [start, rest];
        RunOf(zlib, raw, f, g, whole);
        RunOf(zlib, raw, f, g, cut);
        assert Agree(codec, whole, cut);
      }
    }
    if forall start, rest :: start != [] ==> Judged(zlib, f, g, start, rest) {
      forall a, b
        ensures Agree(codec, a, b)
      {
        if NoneEmpty(a) && NoneEmpty(b) && Concat(a) == Concat(b) {
          RunOf(zlib, raw, f, g, a);
          RunOf(zlib, raw, f, g, b);
          if a != [] && b != [] {
            FirstOf(a);
            FirstOf(b);
            assert Judged(zlib, f, g, a[0], Concat(a[1..]));
            assert Judged(zlib, f, g, b[0], Concat(b[1..]));
          } else {
            NothingCut(a, b);
          }
        }
      }
    }
  }

  lemma FirstOf(a: seq<Bytes>)
    requires a != [] && NoneEmpty(a)
    ensures a[0] != [] && Concat(a) == a[0] + Concat(a[1..])
  {
  }

  lemma NothingCut(a: seq<Bytes>, b: seq<Bytes>)
    requires NoneEmpty(a) && NoneEmpty(b) && Concat(a) == Concat(b) && (a == [] || b == [])
    ensures a == [] && b == []
  {
    if a != [] {
      FirstOf(a);
    }
    if b != [] {
      FirstOf(b);
    }
  }

  // ----- a body that does depend on it -----

  /** The header check of zlib, section 2.2 of RFC 1950: the first two bytes make up a multiple of 31. What follows the
      header is not looked into here. */
  function HeaderCheck(): Codec<Bytes>
  {
    Codec([], (s: Bytes, data: Bytes) => if HeaderFails(s + data) then None else Some((s + data, [])),
          s => Some([]))
  }

  predicate HeaderFails(s: Bytes) { |s| >= 2 && (256 * s[0] as int + s[1] as int) % 31 != 0 }

  /** A raw deflate body that does not start like a zlib one is read if its first two bytes come together, and is
      refused if the first one comes alone: zlib has to wait for the second one, and the first attempt is over by
      then. */
  lemma RawBodyRefused<R>(raw: Codec<R>, first: byte, rest: Bytes)
    requires rest != [] && (256 * first as int + rest[0] as int) % 31 != 0
    ensures var codec := DeflateCodec(HeaderCheck(), raw);
            && Run(codec, codec.init, [[first] + rest]) == Run(raw, raw.init, [[first] + rest])
            && Run(codec, codec.init, [[first], rest]) == None
  {
    var zlib := HeaderCheck();
    var whole: seq<Bytes>, cut: seq<Bytes> := [[first] + rest], [[first], rest];
    assert HeaderFails([] + whole[0]) && !HeaderFails([] + cut[0]);
    FirstChunkDecides(zlib, raw, whole);
    FirstChunkDecides(zlib, raw, cut);
    RunStep(zlib, zlib.init, cut);
    assert cut[1..] == [rest] && [] + cut[0] == cut[0];
    RunStep(zlib, cut[0], cut[1..]);
    assert HeaderFails(cut[0] + rest);
  }
}
