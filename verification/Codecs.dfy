/** Content decoders of httpxp/_decoders.py: an abstract `ContentDecoder`, and `MultiDecoder`. */
module Codecs {
  import opened Prelude

  type Bytes = seq<byte>

  /** A stream decoder by its state: None stands for DecodingError. */
  datatype Codec<!S> = Codec(init: S, decode: (S, Bytes) -> Option<(S, Bytes)>, flush: S -> Option<Bytes>)

  /** State and output after decoding the chunks one by one. */
  function DecodeAll<S>(c: Codec<S>, s: S, chunks: seq<Bytes>): Option<(S, Bytes)>
  {
    if chunks == [] then Some((s, []))
    else
      match c.decode(s, chunks[0])
      case None => None
      case Some((s1, out)) =>
        match DecodeAll(c, s1, chunks[1..])
        case None => None
        case Some((s2, rest)) => Some((s2, out + rest))
  }

  /** Everything a decoder gives out for a list of chunks followed by flush. */
  function Run<S>(c: Codec<S>, s: S, chunks: seq<Bytes>): Option<Bytes>
  {
    match DecodeAll(c, s, chunks)
    case None => None
    case Some((s1, out)) =>
      match c.flush(s1)
      case None => None
      case Some(last) => Some(out + last)
  }

  /** What is given out depends on the bytes only, not on how they were cut. */
  ghost predicate CutFree<S>(c: Codec<S>, f: Bytes -> Option<Bytes>)
  {
    forall chunks: seq<Bytes> :: Run(c, c.init, chunks) == f(Concat(chunks))
  }

  lemma {:induction false} DecodeAllSnoc<S>(c: Codec<S>, s: S, chunks: seq<Bytes>, x: Bytes)
    ensures DecodeAll(c, s, chunks + [x]) ==
            match DecodeAll(c, s, chunks)
            case None => None
            case Some((s1, out)) =>
              match c.decode(s1, x)
              case None => None
              case Some((s2, y)) => Some((s2, out + y))
  {
    if chunks == [] {
      assert chunks + [x] == [x];
      if c.decode(s, x).Some? {
        var (s2, y) := c.decode(s, x).value;
        assert DecodeAll(c, s2, [x][1..]) == Some((s2, []));
        assert y + [] == y && [] + y == y;
      }
    } else {
      assert (chunks + [x])[1..] == chunks[1..] + [x];
      if c.decode(s, chunks[0]).Some? {
        var (s1, out) := c.decode(s, chunks[0]).value;
        DecodeAllSnoc(c, s1, chunks[1..], x);
        if DecodeAll(c, s1, chunks[1..]).Some? {
          var (s2, rest) := DecodeAll(c, s1, chunks[1..]).value;
          if c.decode(s2, x).Some? {
            var y := c.decode(s2, x).value.1;
            assert out + (rest + y) == (out + rest) + y;
          }
        }
      }
    }
  }

  // ----- several decoders in a row -----

  /** `MultiDecoder.decode`: through every child in turn. */
  function MultiDecode<S>(cs: seq<Codec<S>>, ss: seq<S>, data: Bytes): Option<(seq<S>, Bytes)>
    requires |cs| == |ss|
    ensures var r := MultiDecode(cs, ss, data); r.Some? ==> |r.value.0| == |cs|
  {
    if cs == [] then Some(([], data))
    else
      match cs[0].decode(ss[0], data)
      case None => None
      case Some((s, out)) =>
        match MultiDecode(cs[1..], ss[1..], out)
        case None => None
        case Some((rest, last)) => Some(([s] + rest, last))
  }

  /** `MultiDecoder.flush`: each child decodes what the one before it had left, then flushes. */
  function MultiFlush<S>(cs: seq<Codec<S>>, ss: seq<S>, data: Bytes): Option<Bytes>
    requires |cs| == |ss|
  {
    if cs == [] then Some(data)
    else
      match cs[0].decode(ss[0], data)
      case None => None
      case Some((s, out)) =>
        match cs[0].flush(s)
        case None => None
        case Some(left) => MultiFlush(cs[1..], ss[1..], out + left)
  }

  /** All output for some chunks, when the flush starts from `last`. */
  function MultiRun<S>(cs: seq<Codec<S>>, ss: seq<S>, chunks: seq<Bytes>, last: Bytes): Option<Bytes>
    requires |cs| == |ss|
    decreases |chunks|
  {
    if chunks == [] then MultiFlush(cs, ss, last)
    else
      match MultiDecode(cs, ss, chunks[0])
      case None => None
      case Some((ss1, out)) =>
        match MultiRun(cs, ss1, chunks[1..], last)
        case None => None
        case Some(rest) => Some(out + rest)
  }

  function Inits<S>(cs: seq<Codec<S>>): (ss: seq<S>)
    ensures |ss| == |cs|
  {
    seq(|cs|, i requires 0 <= i < |cs| => cs[i].init)
  }

  /** One function after another, in the order the children decode. */
  function Pipeline(fs: seq<Bytes -> Option<Bytes>>, data: Bytes): Option<Bytes>
  {
    if fs == [] then Some(data)
    else
      match fs[0](data)
      case None => None
      case Some(out) => Pipeline(fs[1..], out)
  }

  /** The pieces the first child hands on, chunk by chunk, and the last one it hands on at flush. */
  function Handed<S>(c: Codec<S>, s: S, chunks: seq<Bytes>, last: Bytes): Option<(seq<Bytes>, Bytes)>
    decreases |chunks|
  {
    if chunks == [] then
      match c.decode(s, last)
      case None => None
      case Some((s1, out)) =>
        (match c.flush(s1)
         case None => None
         case Some(left) => Some(([], out + left)))
    else
      match c.decode(s, chunks[0])
      case None => None
      case Some((s1, out)) =>
        match Handed(c, s1, chunks[1..], last)
        case None => None
        case Some((rest, final)) => Some(([out] + rest, final))
  }

  /** Output that comes before the rest of a run. */
  function Before(out: Bytes, rest: Option<Bytes>): Option<Bytes>
  {
    match rest
    case None => None
    case Some(later) => Some(out + later)
  }

  lemma RunStep<S>(c: Codec<S>, s: S, chunks: seq<Bytes>)
    requires chunks != []
    ensures Run(c, s, chunks) ==
            match c.decode(s, chunks[0])
            case None => None
            case Some((s1, out)) => Before(out, Run(c, s1, chunks[1..]))
  {
    if c.decode(s, chunks[0]).Some? {
      var (s1, out) := c.decode(s, chunks[0]).value;
      if DecodeAll(c, s1, chunks[1..]).Some? {
        var (s2, rest) := DecodeAll(c, s1, chunks[1..]).value;
        if c.flush(s2).Some? {
          assert (out + rest) + c.flush(s2).value == out + (rest + c.flush(s2).value);
        }
      }
    }
  }

  /** Everything a child hands on. */
  function AllHanded(handed: Option<(seq<Bytes>, Bytes)>): Option<Bytes>
  {
    match handed
    case None => None
    case Some((pieces, final)) => Some(Concat(pieces) + final)
  }

  lemma AllHandedStep(out: Bytes, handed: Option<(seq<Bytes>, Bytes)>)
    requires handed.Some?
    ensures AllHanded(Some(([out] + handed.value.0, handed.value.1))) == Before(out, AllHanded(handed))
  {
    var (pieces, final) := handed.value;
    assert ([out] + pieces)[1..] == pieces;
    assert out + (Concat(pieces) + final) == (out + Concat(pieces)) + final;
  }

  /** What the first child hands on is its own run over the chunks and the flush input. */
  lemma {:induction false} HandedIsRun<S>(c: Codec<S>, s: S, chunks: seq<Bytes>, last: Bytes)
    ensures Run(c, s, chunks + [last]) == AllHanded(Handed(c, s, chunks, last))
    decreases |chunks|
  {
    if chunks == [] {
      DecodeAllSnoc(c, s, [], last);
      if c.decode(s, last).Some? {
        var out := c.decode(s, last).value.1;
        assert [] + out == out && [] + [last] == [last];
        if c.flush(c.decode(s, last).value.0).Some? {
          var left := c.flush(c.decode(s, last).value.0).value;
          assert Concat<byte>([]) + (out + left) == out + left;
        }
      }
    } else {
      hide Run, AllHanded;
      var longer := chunks + [last];
      assert longer[0] == chunks[0] && longer[1..] == chunks[1..] + [last];
      RunStep(c, s, longer);
      if c.decode(s, chunks[0]).Some? {
        var (s1, out) := c.decode(s, chunks[0]).value;
        HandedIsRun(c, s1, chunks[1..], last);
        var handed := Handed(c, s1, chunks[1..], last);
        AllHandedOf(handed);
        if handed.Some? {
          AllHandedStep(out, handed);
        }
      } else {
        AllHandedOf(None);
      }
    }
  }

  lemma AllHandedOf(handed: Option<(seq<Bytes>, Bytes)>)
    ensures AllHanded(handed).None? <==> handed.None?
    ensures AllHanded(None) == None
  {
  }

  /** The remaining children see exactly what the first one hands on. */
  lemma {:induction false} Peel<S>(cs: seq<Codec<S>>, ss: seq<S>, chunks: seq<Bytes>, last: Bytes)
    requires |cs| == |ss| > 0
    ensures MultiRun(cs, ss, chunks, last) ==
            match Handed(cs[0], ss[0], chunks, last)
            case None => None
            case Some((pieces, final)) => MultiRun(cs[1..], ss[1..], pieces, final)
    decreases |chunks|
  {
    if chunks != [] && cs[0].decode(ss[0], chunks[0]).Some? {
      var (s, out) := cs[0].decode(ss[0], chunks[0]).value;
      var handed := Handed(cs[0], s, chunks[1..], last);
      if handed.Some? {
        assert ([out] + handed.value.0)[1..] == handed.value.0;
      }
      if MultiDecode(cs[1..], ss[1..], out).Some? {
        var (rest, z) := MultiDecode(cs[1..], ss[1..], out).value;
        Peel(cs, [s] + rest, chunks[1..], last);
        assert ([s] + rest)[1..] == rest;
      }
    }
  }

  /** If each child's output depends on its bytes only, so does the whole decoder's, and it is the
      children's functions applied one after another, flush cascade included. */
  lemma {:induction false} MultiRunIsPipeline<S>(cs: seq<Codec<S>>, fs: seq<Bytes -> Option<Bytes>>,
                                                 chunks: seq<Bytes>, last: Bytes)
    requires |cs| == |fs| && forall i | 0 <= i < |cs| :: CutFree(cs[i], fs[i])
    ensures MultiRun(cs, Inits(cs), chunks, last) == Pipeline(fs, Concat(chunks) + last)
    decreases |cs|
  {
    if cs == [] {
      IdentityRun(cs, chunks, last);
    } else {
      Peel(cs, Inits(cs), chunks, last);
      HandedIsRun(cs[0], cs[0].init, chunks, last);
      assert CutFree(cs[0], fs[0]);
      assert Run(cs[0], cs[0].init, chunks + [last]) == fs[0](Concat(chunks + [last]));
      ConcatSnoc(chunks, last);
      var handed := Handed(cs[0], cs[0].init, chunks, last);
      if handed.Some? {
        assert AllHanded(handed) == Some(Concat(handed.value.0) + handed.value.1);
        assert Inits(cs)[1..] == Inits(cs[1..]);
        forall i | 0 <= i < |cs[1..]|
          ensures CutFree(cs[1..][i], fs[1..][i])
        {
          assert CutFree(cs[i + 1], fs[i + 1]);
        }
        MultiRunIsPipeline(cs[1..], fs[1..], handed.value.0, handed.value.1);
      }
    }
  }

  lemma {:induction false} IdentityRun<S>(cs: seq<Codec<S>>, chunks: seq<Bytes>, last: Bytes)
    requires cs == []
    ensures MultiRun(cs, [], chunks, last) == Some(Concat(chunks) + last)
    decreases |chunks|
  {
    if chunks == [] {
      assert Concat(chunks) + last == last;
    } else {
      IdentityRun(cs, chunks[1..], last);
      assert chunks[0] + (Concat(chunks[1..]) + last) == Concat(chunks) + last;
    }
  }

  /** A `MultiDecoder` as a decoder of its own, over the states of its children. */
  function MultiCodec<S>(cs: seq<Codec<S>>): Codec<seq<S>>
  {
    Codec(Inits(cs),
          (ss: seq<S>, data) => if |ss| == |cs| then MultiDecode(cs, ss, data) else None,
          (ss: seq<S>) => if |ss| == |cs| then MultiFlush(cs, ss, []) else None)
  }

  lemma {:induction false} MultiCodecRuns<S>(cs: seq<Codec<S>>, ss: seq<S>, chunks: seq<Bytes>)
    requires |cs| == |ss|
    ensures Run(MultiCodec(cs), ss, chunks) == MultiRun(cs, ss, chunks, [])
    decreases |chunks|
  {
    var c := MultiCodec(cs);
    if chunks == [] {
      if MultiFlush(cs, ss, []).Some? {
        assert [] + MultiFlush(cs, ss, []).value == MultiFlush(cs, ss, []).value;
      }
    } else {
      RunStep(c, ss, chunks);
      if MultiDecode(cs, ss, chunks[0]).Some? {
        MultiCodecRuns(cs, MultiDecode(cs, ss, chunks[0]).value.0, chunks[1..]);
      }
    }
  }

  /** Composing decoders whose output does not depend on the cutting gives such a decoder again. */
  lemma {:induction false} MultiDecoderIsCutFree<S>(cs: seq<Codec<S>>, fs: seq<Bytes -> Option<Bytes>>)
    requires |cs| == |fs| && forall i | 0 <= i < |cs| :: CutFree(cs[i], fs[i])
    ensures CutFree(MultiCodec(cs), data => Pipeline(fs, data))
  {
    forall chunks: seq<Bytes>
      ensures Run(MultiCodec(cs), Inits(cs), chunks) == Pipeline(fs, Concat(chunks))
    {
      MultiCodecRuns(cs, Inits(cs), chunks);
      MultiRunIsPipeline(cs, fs, chunks, []);
      assert Concat(chunks) + [] == Concat(chunks);
    }
  }

  // ----- the stateful objects -----

  class ContentDecoder<S> {
    const codec: Codec<S>
    var state: S

    constructor (codec: Codec<S>)
      ensures this.codec == codec && state == codec.init
    {
      this.codec, state := codec, codec.init;
    }

    method Decode(data: Bytes) returns (r: Option<Bytes>)
      modifies this
      ensures match codec.decode(old(state), data)
              case None => r == None && state == old(state)
              case Some((s, out)) => r == Some(out) && state == s
    {
      match codec.decode(state, data)
      case None => r := None;
      case Some((s, out)) =>
        state := s;
        r := Some(out);
    }

    method Flush() returns (r: Option<Bytes>)
      ensures r == codec.flush(state)
    {
      r := codec.flush(state);
    }
  }

  class MultiDecoder<S> {
    const children: seq<ContentDecoder<S>>

    ghost predicate Valid()
      reads this
    {
      forall i, j | 0 <= i < j < |children| :: children[i] != children[j]
    }

    ghost function CodecsOf(): (r: seq<Codec<S>>)
      reads this
      ensures |r| == |children|
    {
      seq(|children|, i requires 0 <= i < |children| reads this => children[i].codec)
    }

    ghost function States(): (r: seq<S>)
      reads this, children
      ensures |r| == |children|
    {
      seq(|children|, i requires 0 <= i < |children| reads this, children => children[i].state)
    }

    /** `list(reversed(children))`: the coding applied last is undone first. */
    constructor (applied: seq<ContentDecoder<S>>)
      requires forall i, j | 0 <= i < j < |applied| :: applied[i] != applied[j]
      ensures Valid() && |children| == |applied|
      ensures forall i | 0 <= i < |applied| :: children[i] == applied[|applied| - 1 - i]
    {
      children := seq(|applied|, i requires 0 <= i < |applied| => applied[|applied| - 1 - i]);
    }

    method Decode(input: Bytes) returns (r: Option<Bytes>)
      requires Valid()
      modifies children
      ensures match MultiDecode(CodecsOf(), old(States()), input)
              case None => r == None
              case Some((ss, out)) => r == Some(out) && States() == ss
    {
      hide MultiDecode, Resumed;
      var data := input;
      ghost var cs, ss := CodecsOf(), States();
      assert cs[0..] == cs && ss[0..] == ss && States()[..0] == [];
      ResumedAtStart(MultiDecode(cs, ss, input));
      for k := 0 to |children|
        invariant States()[k..] == ss[k..]
        invariant MultiDecode(cs, ss, input) == Resumed(States()[..k], MultiDecode(cs[k..], ss[k..], data))
      {
        ghost var done := States()[..k];
        assert ss[k] == ss[k..][0] == States()[k..][0] == children[k].state;
        MultiDecodeAt(cs, ss, k, data);
        var out := children[k].Decode(data);
        if out.None? {
          ResumedNone(done);
          return None;
        }
        data := out.value;
        assert States()[..k + 1] == done + [children[k].state];
        ResumedStep(done, children[k].state, MultiDecode(cs[k + 1..], ss[k + 1..], data));
        assert forall i | k < i < |children| :: States()[i] == ss[k..][i - k];
      }
      assert States()[..|children|] == States();
      MultiDecodeAtEnd(cs, ss, States(), data);
      r := Some(data);
    }

    method Flush() returns (r: Option<Bytes>)
      requires Valid()
      modifies children
      ensures r == MultiFlush(CodecsOf(), old(States()), [])
    {
      var data: Bytes := [];
      ghost var cs, ss := CodecsOf(), States();
      assert cs[0..] == cs && ss[0..] == ss;
      for k := 0 to |children|
        invariant States()[k..] == ss[k..]
        invariant MultiFlush(cs, ss, []) == MultiFlush(cs[k..], ss[k..], data)
      {
        assert cs[k..][0] == children[k].codec && ss[k..][0] == States()[k..][0] == children[k].state;
        assert cs[k..][1..] == cs[k + 1..] && ss[k..][1..] == ss[k + 1..];
        var out := children[k].Decode(data);
        if out.None? {
          return None;
        }
        var left := children[k].Flush();
        if left.None? {
          return None;
        }
        data := out.value + left.value;
        assert forall i | k < i < |children| :: States()[i] == ss[k..][i - k];
      }
      r := Some(data);
    }
  }

  /** A result for the remaining children, after the states of those already passed. */
  ghost function Resumed<S>(done: seq<S>, r: Option<(seq<S>, Bytes)>): Option<(seq<S>, Bytes)>
  {
    match r
    case None => None
    case Some((rest, out)) => Some((done + rest, out))
  }

  lemma MultiDecodeAt<S>(cs: seq<Codec<S>>, ss: seq<S>, k: nat, data: Bytes)
    requires k < |cs| == |ss|
    ensures MultiDecode(cs[k..], ss[k..], data) ==
            match cs[k].decode(ss[k], data)
            case None => None
            case Some((s, out)) => Resumed([s], MultiDecode(cs[k + 1..], ss[k + 1..], out))
  {
    assert cs[k..][0] == cs[k] && cs[k..][1..] == cs[k + 1..];
    assert ss[k..][0] == ss[k] && ss[k..][1..] == ss[k + 1..];
  }

  lemma MultiDecodeAtEnd<S>(cs: seq<Codec<S>>, ss: seq<S>, done: seq<S>, data: Bytes)
    requires |cs| == |ss|
    ensures Resumed(done, MultiDecode(cs[|cs|..], ss[|cs|..], data)) == Some((done, data))
  {
    assert done + [] == done;
  }

  lemma ResumedNone<S>(done: seq<S>)
    ensures Resumed(done, None) == None
  {
  }

  lemma ResumedAtStart<S>(r: Option<(seq<S>, Bytes)>)
    ensures Resumed([], r) == r
  {
    if r.Some? {
      assert [] + r.value.0 == r.value.0;
    }
  }

  lemma ResumedStep<S>(done: seq<S>, s: S, r: Option<(seq<S>, Bytes)>)
    ensures Resumed(done + [s], r) == Resumed(done, Resumed([s], r))
  {
    if r.Some? {
      assert done + [s] + r.value.0 == done + ([s] + r.value.0);
    }
  }
}
