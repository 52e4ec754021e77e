/** `ByteChunker` and `TextChunker` of httpxp/_decoders.py: one algorithm over bytes or characters. */
module Chunker {
  import opened Prelude

  /** `[value[i : i + n] for i in range(0, len(value), n)]` */
  function Slices<T>(value: seq<T>, n: nat): seq<seq<T>>
    requires n >= 1
    decreases |value|
  {
    if value == [] then []
    else if |value| <= n then [value]
    else [value[..n]] + Slices(value[n..], n)
  }

  ghost predicate AllLength<T>(chunks: seq<seq<T>>, n: nat)
  {
    forall i | 0 <= i < |chunks| :: |chunks[i]| == n
  }

  function Last<T>(tail: seq<T>): seq<seq<T>> { if tail == [] then [] else [tail] }

  /** Full pieces followed by a shorter tail are the slices of the whole. */
  lemma {:induction false} SlicesUnique<T>(chunks: seq<seq<T>>, tail: seq<T>, n: nat)
    requires n >= 1 && AllLength(chunks, n) && |tail| < n
    ensures Slices(Concat(chunks) + tail, n) == chunks + Last(tail)
  {
    if chunks == [] {
      assert Concat(chunks) + tail == tail;
    } else {
      var rest := Concat(chunks[1..]) + tail;
      SlicesUnique(chunks[1..], tail, n);
      assert Concat(chunks) + tail == chunks[0] + rest;
      assert (chunks[0] + rest)[..n] == chunks[0] && (chunks[0] + rest)[n..] == rest;
      if |rest| == 0 {
        assert chunks[0] + rest == chunks[0];
      }
    }
  }

  /** Slicing cuts into full pieces and at most one shorter piece at the end, and loses nothing. */
  lemma {:induction false} SlicesShape<T>(value: seq<T>, n: nat)
    requires n >= 1
    ensures var chunks := Slices(value, n);
            && Concat(chunks) == value
            && (value != [] ==> chunks != [] && 1 <= |chunks[|chunks| - 1]| <= n)
            && forall i | 0 <= i < |chunks| - 1 :: |chunks[i]| == n
    decreases |value|
  {
    if |value| > n {
      SlicesShape(value[n..], n);
      assert value == value[..n] + value[n..];
    }
  }

  lemma NothingGiven<T>(held: seq<T>)
    ensures Concat([]) + held == held
  {
  }

  /** `io.BytesIO` or `io.StringIO`: contents and a cursor. */
  class MemoryFile<T> {
    var data: seq<T>
    var position: nat

    constructor ()
      ensures data == [] && position == 0
    {
      data, position := [], 0;
    }

    /** Overwrites from the cursor on. */
    method Write(text: seq<T>)
      requires position <= |data|
      modifies this
      ensures data == old(data)[..old(position)] + text
                      + (if old(position) + |text| <= |old(data)| then old(data)[old(position) + |text|..] else [])
      ensures position == old(position) + |text|
    {
      data := data[..position] + text + if position + |text| <= |data| then data[position + |text|..] else [];
      position := position + |text|;
    }

    method Rewind()
      modifies this`position
      ensures position == 0
    {
      position := 0;
    }

    /** Drops everything from the cursor on. */
    method Truncate()
      requires position <= |data|
      modifies this`data
      ensures data == old(data)[..position]
    {
      data := data[..position];
    }
  }

  class Chunker<T> {
    const buffer: MemoryFile<T>
    const size: Option<nat>

    /** Between calls the cursor stands at the end, so it tells the length, and less than one piece is held. */
    ghost predicate Valid()
      reads this, buffer
    {
      && buffer.position == |buffer.data|
      && (size.Some? ==> |buffer.data| < size.value)
      && (size.None? ==> buffer.data == [])
    }

    constructor (size: Option<nat>)
      requires size.Some? ==> size.value >= 1
      ensures Valid() && this.size == size && buffer.data == [] && fresh(buffer)
    {
      buffer := new MemoryFile();
      this.size := size;
    }

    /** Gives out full pieces; with no size, whatever comes in. */
    method Decode(content: seq<T>) returns (chunks: seq<seq<T>>)
      requires Valid()
      modifies buffer
      ensures Valid()
      ensures size.None? ==> chunks == Last(content)
      ensures size.Some? ==> AllLength(chunks, size.value) && Concat(chunks) + buffer.data == old(buffer.data) + content
    {
      hide Slices, Concat;
      if size.None? {
        return if content != [] then [content] else [];
      }
      var n := size.value;
      buffer.Write(content);
      assert buffer.data == old(buffer.data) + content;
      if buffer.position >= n {
        var value := buffer.data;
        chunks := Slices(value, n);
        SlicesShape(value, n);
        var last := chunks[|chunks| - 1];
        ConcatSnoc(chunks[..|chunks| - 1], last);
        assert chunks == chunks[..|chunks| - 1] + [last];
        if |last| == n {
          buffer.Rewind();
          buffer.Truncate();
          assert Concat(chunks) + [] == value;
        } else {
          buffer.Rewind();
          buffer.Write(last);
          buffer.Truncate();
          assert buffer.data == last;
          chunks := chunks[..|chunks| - 1];
        }
      } else {
        chunks := [];
        NothingGiven(buffer.data);
      }
    }

    /** Gives out what is left. */
    method Flush() returns (chunks: seq<seq<T>>)
      requires Valid()
      modifies buffer
      ensures Valid() && buffer.data == []
      ensures chunks == Last(old(buffer.data))
    {
      var value := buffer.data;
      buffer.Rewind();
      buffer.Truncate();
      chunks := if value != [] then [value] else [];
    }
  }
}
